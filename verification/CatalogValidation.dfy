/**
Catalog validation: keys and paths, references and reference operations, parent
chains, operations with their features, owners of pages and features, and cycles.
*/
module CatalogValidation {
  import opened Options
  import opened ResourceCatalog
  import opened CatalogSearch
  import opened CycleCheck
  import opened DirectoryBindings
  import opened Grants
  import opened Words

  // ----- Keys -----

  predicate CatalogKey(key: string, min: nat, max: nat) {
    var parts := Split(key, ':');
    min <= |parts| <= max && SegmentsOk(parts)
  }

  predicate CatalogPath(path: string, parameters: bool) {
    ValidPath(path, parameters) && '%' !in path
  }

  lemma {:induction false} PartsNeedSeparators(text: string, separator: char)
    ensures |Split(text, separator)| >= 2 <==> separator in text
  {
    if text != "" {
      PartsNeedSeparators(text[1..], separator);
      assert text == [text[0]] + text[1..];
    }
  }

  ghost predicate ScopesOk(scopes: seq<string>) {
    && scopes != []
    && forall i :: 0 <= i < |scopes| ==> CatalogKey(scopes[i], 1, 1) && scopes[i] !in scopes[..i]
  }

  /** What a node says about itself. */
  predicate HeadOk(key: Key, node: Node) {
    && CatalogKey(key, 2, 128) && |key| + 7 <= 128
    && (node.kind == "directory" || node.kind == "resource")
    && node.sort >= 0
    && (node.kind == "resource" ==> |Split(key, ':')| >= 3)
    && (node.kind == "directory" ==> node.entries == map[] && node.operations == map[])
    && (node.frontendVisible.Some? ==> node.kind == "directory" && node.parent == "")
    && (node.permissionGroup != "" ==> GroupAllowed(key, node))
    && (node.permissionScope != "" ==> node.kind == "resource" && node.permissionScope == "*")
  }

  predicate GroupAllowed(key: Key, node: Node) {
    && node.kind == "directory" && node.parent == ""
    && |node.permissionGroup| <= 128 && CatalogKey(node.permissionGroup, 3, 128)
    && Scope(node.permissionGroup) == Scope(key)
  }

  // ----- Nodes -----

  ghost predicate ChildrenOrdered(catalog: Catalog, key: Key)
    requires key in catalog.resources
  {
    forall i :: 0 <= i < |catalog.resources[key].childOrder| ==> ChildOk(catalog, key, i)
  }

  predicate ChildOk(catalog: Catalog, key: Key, i: nat)
    requires key in catalog.resources && i < |catalog.resources[key].childOrder|
  {
    var node := catalog.resources[key];
    var child := node.childOrder[i];
    && node.kind == "directory"
    && child !in node.childOrder[..i]
    && child.key in catalog.resources
    && (child.kind == "node" || child.kind == "reference")
    && (child.kind == "node" ==> catalog.resources[child.key].parent == key)
    && (child.kind == "reference" ==> child.key in node.references)
  }

  ghost predicate ReferencesOk(catalog: Catalog, key: Key)
    requires key in catalog.resources
  {
    var node := catalog.resources[key];
    && (node.references != [] ==> node.kind == "directory")
    && (forall i :: 0 <= i < |node.references| ==> ReferenceOk(catalog, key, i))
  }

  ghost predicate ReferenceOk(catalog: Catalog, key: Key, i: nat)
    requires key in catalog.resources && i < |catalog.resources[key].references|
  {
    var references := catalog.resources[key].references;
    && references[i] != key
    && references[i] !in references[..i]
    && Scope(references[i]) == Scope(key)
    && references[i] in catalog.resources
  }

  ghost predicate SelectionOk(catalog: Catalog, key: Key, target: Key)
    requires key in catalog.resources && target in catalog.resources[key].referenceOperations
  {
    var selected := catalog.resources[key].referenceOperations[target];
    && target in catalog.resources[key].references
    && selected != []
    && (forall i :: 0 <= i < |selected| ==> SelectedOk(catalog, target, selected, i))
  }

  ghost predicate SelectedOk(catalog: Catalog, target: Key, selected: seq<string>, i: nat)
    requires i < |selected|
  {
    && selected[i] in FixedOperations
    && selected[i] !in selected[..i]
    && Supported(catalog, selected[i], {}, target)
  }

  /** The parent of one key, without regard to the rest of its chain. */
  ghost predicate ParentOk(catalog: Catalog, key: Key)
    requires key in catalog.resources
  {
    var parent := catalog.resources[key].parent;
    parent == "" || (&& parent in catalog.resources
                     && Scope(parent) == Scope(key)
                     && catalog.resources[parent].kind == "directory")
  }

  /** Pages are registered under their scope's menu. */
  predicate EntryOk(key: Key, entryKey: string, entry: Entry) {
    && CatalogKey(entryKey, 3, 128)
    && Scope(key) + ":menu:" <= entryKey
    && CatalogPath(entry.path, false)
    && (entry.parentMenuKey != "" ==>
          && CatalogKey(entry.parentMenuKey, 3, 128)
          && Scope(key) + ":menu:" <= entry.parentMenuKey
          && entry.parentMenuKey != entryKey)
  }

  ghost predicate EntriesOk(key: Key, node: Node) {
    forall entry :: entry in node.entries ==> EntryOk(key, entry, node.entries[entry])
  }

  /** Each operation lists what is registered, once, and features under the resource's own key. */
  ghost predicate OperationOk(catalog: Catalog, key: Key, node: Node, operation: string)
    requires operation in node.operations
  {
    var binding := node.operations[operation];
    && operation in FixedOperations
    && DistinctAmong(binding.entryKeys, node.entries.Keys)
    && DistinctAmong(binding.buttonKeys, catalog.buttons.Keys)
    && (forall feature :: feature in binding.buttonKeys ==> FeatureUnder(key, feature))
  }

  predicate FeatureUnder(key: Key, feature: string) {
    key + ":" <= feature && ':' !in feature[|key| + 1..]
  }

  ghost predicate DistinctAmong(listed: seq<string>, known: set<string>) {
    forall i :: 0 <= i < |listed| ==> listed[i] in known && listed[i] !in listed[..i]
  }

  /** No feature is listed by two operations of a node. */
  ghost predicate OperationsOk(catalog: Catalog, key: Key, node: Node) {
    && (forall operation :: operation in node.operations ==> OperationOk(catalog, key, node, operation))
    && (forall a, b, feature :: ListsUnder(node, a, feature) && ListsUnder(node, b, feature) ==> a == b)
  }

  predicate ListsUnder(node: Node, operation: string, feature: string) {
    operation in node.operations && feature in node.operations[operation].buttonKeys
  }

  ghost predicate Lists(node: Node, feature: string) {
    exists operation :: ListsUnder(node, operation, feature)
  }

  ghost predicate NodeOk(catalog: Catalog, key: Key)
    requires key in catalog.resources
  {
    && HeadOk(key, catalog.resources[key])
    && ChildrenOrdered(catalog, key)
    && ReferencesOk(catalog, key)
    && (forall target :: target in catalog.resources[key].referenceOperations ==> SelectionOk(catalog, key, target))
    && ParentOk(catalog, key)
    && EntriesOk(key, catalog.resources[key])
    && OperationsOk(catalog, key, catalog.resources[key])
  }

  lemma KeyHasColon(key: Key, node: Node)
    requires HeadOk(key, node)
    ensures ':' in key
  {
    PartsNeedSeparators(key, ':');
  }

  // ----- Owners and features -----

  /** No page and no feature belongs to two resources. */
  ghost predicate SingleOwners(catalog: Catalog) {
    && (forall a, b, entry :: Owns(catalog, a, entry) && Owns(catalog, b, entry) ==> a == b)
    && (forall a, b, feature :: Uses(catalog, a, feature) && Uses(catalog, b, feature) ==> a == b)
  }

  predicate Owns(catalog: Catalog, key: Key, entry: string) {
    key in catalog.resources && entry in catalog.resources[key].entries
  }

  ghost predicate Uses(catalog: Catalog, key: Key, feature: string) {
    key in catalog.resources && Lists(catalog.resources[key], feature)
  }

  predicate UnderPage(entry: string, button: string) {
    var prefix := ButtonPrefix(entry);
    prefix <= button && ':' !in button[|prefix|..]
  }

  ghost predicate HasPage(catalog: Catalog, scope: string, button: string) {
    exists owner, entry :: Owns(catalog, owner, entry) && Scope(owner) == scope && UnderPage(entry, button)
  }

  ghost predicate PagesOk(catalog: Catalog, scope: string, listed: seq<string>) {
    forall i :: 0 <= i < |listed| ==>
                Owners(catalog, listed[i]) != {} && Scope(listed[i]) == scope && listed[i] !in listed[..i]
  }

  ghost predicate ButtonsOk(catalog: Catalog, scope: string, listed: seq<string>) {
    forall i :: 0 <= i < |listed| ==>
                CatalogKey(listed[i], 5, 128) && HasPage(catalog, scope, listed[i]) && listed[i] !in listed[..i]
  }

  predicate HttpOk(http: HttpPath) {
    http.method_ in ["GET", "POST", "PATCH", "PUT", "DELETE", "HEAD", "OPTIONS"] && CatalogPath(http.path, true)
  }

  predicate RpcOk(path: string) {
    CatalogPath(path, false) && |Split(path, '/')| == 3
  }

  ghost predicate PartsOk(catalog: Catalog, scope: string, feature: Feature) {
    && PagesOk(catalog, scope, feature.entryKeys)
    && ButtonsOk(catalog, scope, feature.buttons)
    && (forall i :: 0 <= i < |feature.http| ==> HttpOk(feature.http[i]))
    && (forall i :: 0 <= i < |feature.grpc| ==> RpcOk(feature.grpc[i]))
  }

  /** A feature is used, and names pages and buttons of its owner's scope. */
  ghost predicate FeatureOk(catalog: Catalog, name: string)
    requires name in catalog.buttons
  {
    var feature := catalog.buttons[name];
    && CatalogKey(name, 4, 128)
    && (feature.permissionResource != "" ==> SegmentOk(feature.permissionResource))
    && exists owner :: Uses(catalog, owner, name) && PartsOk(catalog, Scope(owner), feature)
  }

  ghost predicate Sound(catalog: Catalog) {
    && (forall key :: key in catalog.resources ==> NodeOk(catalog, key))
    && SingleOwners(catalog)
    && (forall name :: name in catalog.buttons ==> FeatureOk(catalog, name))
  }

  /** Every key lies in one of the listed scopes. */
  ghost predicate ScopesListed(scopes: seq<string>, catalog: Catalog) {
    ScopesOk(scopes) && forall key :: key in catalog.resources ==> Scope(key) in scopes
  }

  /** A parent leads to its child and a node to each of its references. */
  ghost predicate Linked(catalog: Catalog, from: Key, to: Key) {
    || (from != "" && to in catalog.resources && catalog.resources[to].parent == from)
    || (from in catalog.resources && to in catalog.resources[from].references)
  }

  ghost predicate GraphOf(catalog: Catalog, edges: Edges) {
    forall from, to :: to in Targets(edges, from) <==> Linked(catalog, from, to)
  }

  /** A closed walk of at least one link. */
  ghost predicate Loop(catalog: Catalog, walk: seq<Key>) {
    && |walk| >= 2
    && walk[0] == walk[|walk| - 1]
    && forall i :: 0 <= i < |walk| - 1 ==> Linked(catalog, walk[i], walk[i + 1])
  }

  ghost predicate HasLoop(catalog: Catalog) {
    exists walk :: Loop(catalog, walk)
  }

  lemma LoopsAreCycles(catalog: Catalog, edges: Edges)
    requires GraphOf(catalog, edges)
    ensures HasLoop(catalog) <==> Cyclic(edges)
  {
    if walk :| Loop(catalog, walk) {
      assert Walk(edges, walk);
      assert Reaches(edges, walk[0], walk[0]);
    }
    if key :| Reaches(edges, key, key) {
      var walk :| Walk(edges, walk) && walk[0] == key && walk[|walk| - 1] == key;
      assert Loop(catalog, walk);
    }
  }

  method CheckReferences(catalog: Catalog, key: Key) returns (ok: bool)
    requires key in catalog.resources
    ensures ok <==> ReferencesOk(catalog, key)
  {
    var node := catalog.resources[key];
    var seen: set<Key> := {};
    for i := 0 to |node.references|
      invariant forall target :: target in seen <==> target in node.references[..i]
      invariant i > 0 ==> node.kind == "directory"
      invariant forall j :: 0 <= j < i ==> ReferenceOk(catalog, key, j)
    {
      var target := node.references[i];
      if node.kind != "directory" || target == key || target in seen || Scope(target) != Scope(key)
         || target !in catalog.resources {
        assert node.kind == "directory" ==> !ReferenceOk(catalog, key, i);
        return false;
      }
      seen := seen + {target};
      assert node.references[..i + 1] == node.references[..i] + [target];
      assert ReferenceOk(catalog, key, i);
    }
    ok := true;
  }

  method CheckSelection(catalog: Catalog, key: Key, target: Key) returns (ok: bool)
    requires key in catalog.resources && target in catalog.resources[key].referenceOperations
    ensures ok <==> SelectionOk(catalog, key, target)
  {
    var selected := catalog.resources[key].referenceOperations[target];
    if target !in catalog.resources[key].references || |selected| == 0 { return false; }
    var seen: set<string> := {};
    for i := 0 to |selected|
      invariant forall operation :: operation in seen <==> operation in selected[..i]
      invariant forall j :: 0 <= j < i ==> SelectedOk(catalog, target, selected, j)
    {
      var operation := selected[i];
      var search := new SupportSearch(catalog);
      var supported := search.Supports(target, operation);
      if operation !in FixedOperations || operation in seen || !supported {
        assert !SelectedOk(catalog, target, selected, i);
        return false;
      }
      seen := seen + {operation};
      assert selected[..i + 1] == selected[..i] + [operation];
      assert SelectedOk(catalog, target, selected, i);
    }
    ok := true;
  }

  method CheckReferenceOperations(catalog: Catalog, key: Key) returns (ok: bool)
    requires key in catalog.resources
    ensures ok <==> forall target :: target in catalog.resources[key].referenceOperations ==>
                                     SelectionOk(catalog, key, target)
  {
    var remaining := catalog.resources[key].referenceOperations.Keys;
    while remaining != {}
      invariant remaining <= catalog.resources[key].referenceOperations.Keys
      invariant forall target :: target in catalog.resources[key].referenceOperations && target !in remaining
                                 ==> SelectionOk(catalog, key, target)
    {
      var target :| target in remaining;
      ok := CheckSelection(catalog, key, target);
      if !ok { return; }
      remaining := remaining - {target};
    }
    ok := true;
  }

  method CheckDistinct(listed: seq<string>, known: set<string>) returns (ok: bool)
    ensures ok <==> DistinctAmong(listed, known)
  {
    var seen: set<string> := {};
    for i := 0 to |listed|
      invariant forall item :: item in seen <==> item in listed[..i]
      invariant forall j :: 0 <= j < i ==> listed[j] in known && listed[j] !in listed[..j]
    {
      if listed[i] !in known || listed[i] in seen { return false; }
      seen := seen + {listed[i]};
      assert listed[..i + 1] == listed[..i] + [listed[i]];
    }
    ok := true;
  }

  method CheckScopes(scopes: seq<string>) returns (ok: bool)
    ensures ok <==> ScopesOk(scopes)
  {
    var seen: set<string> := {};
    for i := 0 to |scopes|
      invariant forall scope :: scope in seen <==> scope in scopes[..i]
      invariant forall j :: 0 <= j < i ==> CatalogKey(scopes[j], 1, 1) && scopes[j] !in scopes[..j]
    {
      if !CatalogKey(scopes[i], 1, 1) || scopes[i] in seen { return false; }
      seen := seen + {scopes[i]};
      assert scopes[..i + 1] == scopes[..i] + [scopes[i]];
    }
    ok := |scopes| > 0;
  }

  method CheckChildOrder(catalog: Catalog, key: Key) returns (ok: bool)
    requires key in catalog.resources
    ensures ok <==> ChildrenOrdered(catalog, key)
  {
    var node := catalog.resources[key];
    var ordered: set<Child> := {};
    for i := 0 to |node.childOrder|
      invariant forall child :: child in ordered <==> child in node.childOrder[..i]
      invariant forall j :: 0 <= j < i ==> ChildOk(catalog, key, j)
    {
      var child := node.childOrder[i];
      if node.kind != "directory" || child in ordered || child.key !in catalog.resources
         || (child.kind == "node" && catalog.resources[child.key].parent != key)
         || (child.kind == "reference" && child.key !in node.references)
         || (child.kind != "node" && child.kind != "reference") {
        assert !ChildOk(catalog, key, i);
        return false;
      }
      ordered := ordered + {child};
      assert node.childOrder[..i + 1] == node.childOrder[..i] + [child];
    }
    ok := true;
  }

  /** The owners known so far, with the given names added for one key. */
  ghost predicate Extended(owners: map<string, Key>, key: Key, names: set<string>, extended: map<string, Key>) {
    && (forall name :: name in extended <==> name in owners || name in names)
    && (forall name :: name in extended ==> extended[name] == if name in names then key else owners[name])
  }

  method CheckEntries(key: Key, node: Node, owners: map<string, Key>) returns (ok: bool, extended: map<string, Key>)
    ensures ok <==> EntriesOk(key, node) && forall entry :: entry in node.entries ==> entry !in owners
    ensures ok ==> Extended(owners, key, node.entries.Keys, extended)
  {
    extended := owners;
    var remaining := node.entries.Keys;
    while remaining != {}
      invariant remaining <= node.entries.Keys
      invariant forall entry :: entry in node.entries && entry !in remaining ==>
                                EntryOk(key, entry, node.entries[entry]) && entry !in owners
      invariant Extended(owners, key, node.entries.Keys - remaining, extended)
    {
      var entry :| entry in remaining;
      if !EntryOk(key, entry, node.entries[entry]) || entry in extended { return false, extended; }
      extended := extended[entry := key];
      remaining := remaining - {entry};
    }
    ok := true;
  }

  method CheckFeatures(catalog: Catalog, key: Key, listed: seq<string>, owners: map<string, Key>)
    returns (ok: bool, extended: map<string, Key>)
    ensures ok <==> && DistinctAmong(listed, catalog.buttons.Keys)
                    && forall feature :: feature in listed ==> FeatureUnder(key, feature) && feature !in owners
    ensures ok ==> Extended(owners, key, Members(listed), extended)
  {
    extended := owners;
    for i := 0 to |listed|
      invariant forall j :: 0 <= j < i ==> listed[j] in catalog.buttons && listed[j] !in listed[..j]
      invariant forall feature :: feature in listed[..i] ==> FeatureUnder(key, feature) && feature !in owners
      invariant Extended(owners, key, Members(listed[..i]), extended)
    {
      var feature := listed[i];
      if feature !in catalog.buttons || !FeatureUnder(key, feature) || feature in extended {
        assert feature in listed;
        return false, extended;
      }
      extended := extended[feature := key];
      assert listed[..i + 1] == listed[..i] + [feature];
    }
    assert listed[..|listed|] == listed;
    ok := true;
  }

  /** Operations checked so far: each is in order, and no feature is listed by two of them or already owned. */
  ghost predicate CheckedSoFar(catalog: Catalog, key: Key, node: Node, owners: map<string, Key>, done: set<string>) {
    && done <= node.operations.Keys
    && (forall operation :: operation in done ==> OperationOk(catalog, key, node, operation))
    && (forall operation, feature :: operation in done && ListsUnder(node, operation, feature) ==> feature !in owners)
    && (forall a, b, feature ::
          a in done && b in done && ListsUnder(node, a, feature) && ListsUnder(node, b, feature) ==> a == b)
  }

  ghost predicate ListsAmong(node: Node, done: set<string>, feature: string) {
    exists operation :: operation in done && ListsUnder(node, operation, feature)
  }

  ghost function FeaturesAmong(node: Node, done: set<string>): (features: set<string>)
    ensures forall feature :: feature in features <==> ListsAmong(node, done, feature)
    ensures done == node.operations.Keys ==> forall feature :: feature in features <==> Lists(node, feature)
  {
    assert forall operation, feature :: ListsUnder(node, operation, feature) ==> operation in node.operations.Keys;
    set operation, feature | operation in done && operation in node.operations &&
        feature in node.operations[operation].buttonKeys :: feature
  }

  ghost function Members(listed: seq<string>): set<string> {
    set item | item in listed
  }

  method CheckOperations(catalog: Catalog, key: Key, node: Node, owners: map<string, Key>)
    returns (ok: bool, extended: map<string, Key>)
    ensures ok <==> OperationsOk(catalog, key, node) && forall feature :: Lists(node, feature) ==> feature !in owners
    ensures ok ==> Extended(owners, key, FeaturesAmong(node, node.operations.Keys), extended)
  {
    extended := owners;
    var remaining := node.operations.Keys;
    while remaining != {}
      invariant remaining <= node.operations.Keys
      invariant CheckedSoFar(catalog, key, node, owners, node.operations.Keys - remaining)
      invariant Extended(owners, key, FeaturesAmong(node, node.operations.Keys - remaining), extended)
    {
      hide DistinctAmong, FeatureUnder;
      var operation :| operation in remaining;
      ghost var done := node.operations.Keys - remaining;
      assert operation in node.operations;
      if operation !in FixedOperations {
        assert !OperationOk(catalog, key, node, operation);
        return false, extended;
      }
      ok := CheckDistinct(node.operations[operation].entryKeys, node.entries.Keys);
      if !ok {
        assert !OperationOk(catalog, key, node, operation);
        return;
      }
      var before := extended;
      ok, extended := CheckFeatures(catalog, key, node.operations[operation].buttonKeys, before);
      if !ok {
        OperationRefused(catalog, key, node, owners, done, before, operation);
        return;
      }
      OperationAdded(catalog, key, node, owners, done, before, operation, extended);
      remaining := remaining - {operation};
      assert node.operations.Keys - remaining == done + {operation};
    }
    assert node.operations.Keys - remaining == node.operations.Keys;
    assert forall feature :: ListsAmong(node, node.operations.Keys, feature) <==> Lists(node, feature);
    ok := true;
  }

  lemma OperationRefused(catalog: Catalog, key: Key, node: Node, owners: map<string, Key>, done: set<string>,
                         before: map<string, Key>,
                         operation: string)
    requires operation in node.operations && operation !in done && CheckedSoFar(catalog, key, node, owners, done)
    requires Extended(owners, key, FeaturesAmong(node, done), before)
    requires !(&& DistinctAmong(node.operations[operation].buttonKeys, catalog.buttons.Keys)
               && forall feature :: feature in node.operations[operation].buttonKeys ==>
                                    FeatureUnder(key, feature) && feature !in before)
    ensures !(OperationsOk(catalog, key, node) && forall feature :: Lists(node, feature) ==> feature !in owners)
  {
    hide DistinctAmong, FeatureUnder;
    if OperationOk(catalog, key, node, operation) {
      var feature :| feature in node.operations[operation].buttonKeys && feature in before;
      assert ListsUnder(node, operation, feature);
      if feature !in owners {
        var other :| other in done && ListsUnder(node, other, feature);
        assert other != operation;
      }
    }
  }

  lemma OneMoreAmong(node: Node, done: set<string>, operation: string)
    requires operation in node.operations
    ensures FeaturesAmong(node, done + {operation}) ==
        FeaturesAmong(node, done) + Members(node.operations[operation].buttonKeys)
  {
    forall feature
      ensures ListsAmong(node, done + {operation}, feature)
         <==> ListsAmong(node, done, feature) || feature in node.operations[operation].buttonKeys
    {
      assert feature in node.operations[operation].buttonKeys <==> ListsUnder(node, operation, feature);
    }
  }

  lemma OperationAdded(catalog: Catalog, key: Key, node: Node, owners: map<string, Key>, done: set<string>,
                       before: map<string, Key>,
                       operation: string, extended: map<string, Key>)
    requires operation in node.operations && operation !in done && CheckedSoFar(catalog, key, node, owners, done)
    requires Extended(owners, key, FeaturesAmong(node, done), before)
    requires OperationOk(catalog, key, node, operation)
    requires forall feature :: feature in node.operations[operation].buttonKeys ==> feature !in before
    requires Extended(before, key, Members(node.operations[operation].buttonKeys), extended)
    ensures CheckedSoFar(catalog, key, node, owners, done + {operation})
    ensures Extended(owners, key, FeaturesAmong(node, done + {operation}), extended)
  {
    hide OperationOk, FeaturesAmong;
    OneMoreAmong(node, done, operation);
    forall a, b, feature | a in done + {operation} && b in done + {operation} && ListsUnder(node, a, feature) &&
        ListsUnder(node, b, feature)
      ensures a == b
    {
      assert a != operation ==> ListsAmong(node, done, feature);
      assert b != operation ==> ListsAmong(node, done, feature);
    }
  }

  // ----- Parents -----

  /** A key followed by its parent, its parent's parent and so on. */
  ghost predicate ParentChain(catalog: Catalog, chain: seq<Key>) {
    && chain != []
    && forall i :: 0 <= i < |chain| - 1 ==>
         chain[i] in catalog.resources && catalog.resources[chain[i]].parent != "" &&
             chain[i + 1] == catalog.resources[chain[i]].parent
  }

  /** The end of a chain is a directory of the scope that the chain has not met before. */
  ghost predicate EndOk(catalog: Catalog, chain: seq<Key>)
    requires chain != []
  {
    var ancestor := chain[|chain| - 1];
    && ancestor in catalog.resources
    && Scope(ancestor) == Scope(chain[0])
    && catalog.resources[ancestor].kind == "directory"
    && ancestor !in chain[..|chain| - 1]
  }

  ghost predicate AncestorsOk(catalog: Catalog, key: Key) {
    forall chain :: ParentChain(catalog, chain) && chain[0] == key && |chain| > 1 ==> EndOk(catalog, chain)
  }

  /** Chains from the same key agree as far as both go. */
  lemma {:induction false} ChainsAgree(catalog: Catalog, a: seq<Key>, b: seq<Key>)
    requires ParentChain(catalog, a) && ParentChain(catalog, b) && a[0] == b[0] && |a| <= |b|
    ensures a == b[..|a|]
    decreases |a|
  {
    if |a| > 1 {
      var shorter := a[..|a| - 1];
      assert ParentChain(catalog, shorter);
      ChainsAgree(catalog, shorter, b);
      assert a[|a| - 2] == shorter[|a| - 2] == b[|a| - 2];
      assert a == shorter + [a[|a| - 1]];
    }
  }

  method CheckParents(catalog: Catalog, key: Key) returns (ok: bool)
    requires key in catalog.resources
    ensures ok <==> AncestorsOk(catalog, key)
  {
    var visited := {key};
    ghost var chain := [key];
    var parent := catalog.resources[key].parent;
    while parent != ""
      invariant ParentChain(catalog, chain) && chain[0] == key && chain[|chain| - 1] in catalog.resources
      invariant parent == catalog.resources[chain[|chain| - 1]].parent
      invariant forall v :: v in visited <==> v in chain
      invariant visited <= catalog.resources.Keys
      invariant forall n :: 1 < n <= |chain| ==> EndOk(catalog, chain[..n])
      decreases catalog.resources.Keys - visited
    {
      ghost var longer := chain + [parent];
      assert ParentChain(catalog, longer) && longer[..|chain|] == chain;
      if parent !in catalog.resources || parent in visited || Scope(parent) != Scope(key)
         || catalog.resources[parent].kind != "directory" {
        assert !EndOk(catalog, longer);
        return false;
      }
      forall n | 1 < n <= |longer| ensures EndOk(catalog, longer[..n]) {
        if n <= |chain| {
          assert longer[..n] == chain[..n];
        } else {
          assert longer[..n] == longer;
        }
      }
      visited := visited + {parent};
      chain := longer;
      parent := catalog.resources[parent].parent;
    }
    forall other | ParentChain(catalog, other) && other[0] == key && |other| > 1 ensures EndOk(catalog, other) {
      ChainIsWithin(catalog, chain, other);
    }
    ok := true;
  }

  /** No chain from the key is longer than the one that ends at a root. */
  lemma ChainIsWithin(catalog: Catalog, chain: seq<Key>, other: seq<Key>)
    requires ParentChain(catalog, chain) && ParentChain(catalog, other) && chain[0] == other[0]
    requires chain[|chain| - 1] in catalog.resources && catalog.resources[chain[|chain| - 1]].parent == ""
    ensures |other| <= |chain| && other == chain[..|other|]
  {
    if |other| <= |chain| {
      ChainsAgree(catalog, other, chain);
    } else {
      ChainsAgree(catalog, chain, other);
      assert false;
    }
  }

  lemma AncestorsStartWithParent(catalog: Catalog, key: Key)
    requires key in catalog.resources && AncestorsOk(catalog, key)
    ensures ParentOk(catalog, key)
  {
    var parent := catalog.resources[key].parent;
    if parent != "" {
      assert ParentChain(catalog, [key, parent]);
      assert EndOk(catalog, [key, parent]);
    }
  }

  /** A chain that fails has a node with a bad parent, or runs into itself. */
  lemma BadAncestor(catalog: Catalog, key: Key, chain: seq<Key>)
    requires key in catalog.resources && forall node :: node in catalog.resources ==> ParentOk(catalog, node)
    requires ParentChain(catalog, chain) && chain[0] == key && |chain| > 1 && !EndOk(catalog, chain)
    ensures HasLoop(catalog)
  {
    ChainStaysInScope(catalog, chain);
    var last := |chain| - 1;
    assert ParentOk(catalog, chain[last - 1]);
    hide ParentOk, Scope;
    var i :| 0 <= i < last && chain[i] == chain[last];
    var walk := Upwards(chain, i);
    assert Loop(catalog, walk) by {
      forall k | 0 <= k < |walk| - 1 ensures Linked(catalog, walk[k], walk[k + 1]) {
        assert walk[k] == chain[last - k] && walk[k + 1] == chain[last - k - 1];
      }
    }
  }

  /** The stretch of a chain from its end down to position i. */
  function Upwards(chain: seq<Key>, i: nat): (walk: seq<Key>)
    requires i < |chain|
    ensures |walk| == |chain| - i && forall k :: 0 <= k < |walk| ==> walk[k] == chain[|chain| - 1 - k]
  {
    seq(|chain| - i, k requires 0 <= k < |chain| - i => chain[|chain| - 1 - k])
  }

  lemma {:induction false} ChainStaysInScope(catalog: Catalog, chain: seq<Key>)
    requires forall node :: node in catalog.resources ==> ParentOk(catalog, node)
    requires ParentChain(catalog, chain) && chain[0] in catalog.resources
    ensures forall i :: 0 <= i < |chain| ==> chain[i] in catalog.resources && Scope(chain[i]) == Scope(chain[0])
    decreases |chain|
  {
    if |chain| > 1 {
      var shorter := chain[..|chain| - 1];
      ChainStaysInScope(catalog, shorter);
      assert ParentOk(catalog, shorter[|shorter| - 1]);
      assert chain == shorter + [chain[|chain| - 1]];
    }
  }

  // ----- Features -----

  /** The pages and features of the nodes seen so far, each with its owner. */
  ghost predicate OwnersKnown(catalog: Catalog, done: set<Key>, entries: map<string, Key>, features: map<string, Key>) {
    && done <= catalog.resources.Keys
    && (forall entry :: entry in entries ==> entries[entry] in done && Owns(catalog, entries[entry], entry))
    && (forall key, entry :: key in done && Owns(catalog, key, entry) ==> entry in entries && entries[entry] == key)
    && (forall feature :: feature in features ==>
                          features[feature] in done && Uses(catalog, features[feature], feature))
    && (forall key, feature :: key in done && Uses(catalog, key, feature) ==>
                               feature in features && features[feature] == key)
  }

  lemma NodeAdded(catalog: Catalog, done: set<Key>, entries: map<string, Key>, features: map<string, Key>, key: Key,
                  moreEntries: map<string, Key>, moreFeatures: map<string, Key>)
    requires OwnersKnown(catalog, done, entries, features) && key in catalog.resources && key !in done
    requires Extended(entries, key, catalog.resources[key].entries.Keys, moreEntries)
    requires Extended(features, key, FeaturesAmong(catalog.resources[key], catalog.resources[key].operations.Keys),
                      moreFeatures)
    requires forall entry :: entry in catalog.resources[key].entries ==> entry !in entries
    requires forall feature :: Lists(catalog.resources[key], feature) ==> feature !in features
    ensures OwnersKnown(catalog, done + {key}, moreEntries, moreFeatures)
  {
    hide Lists;
  }

  lemma TakenTwice(catalog: Catalog, done: set<Key>, entries: map<string, Key>, features: map<string, Key>, key: Key)
    requires OwnersKnown(catalog, done, entries, features) && key in catalog.resources && key !in done
    requires (exists entry :: entry in catalog.resources[key].entries && entry in entries)
          || (exists feature :: Lists(catalog.resources[key], feature) && feature in features)
    ensures !SingleOwners(catalog)
  {
    hide Lists;
    if entry :| entry in catalog.resources[key].entries && entry in entries {
      assert Owns(catalog, entries[entry], entry) && Owns(catalog, key, entry);
    } else {
      var feature :| Lists(catalog.resources[key], feature) && feature in features;
      assert Uses(catalog, features[feature], feature) && Uses(catalog, key, feature);
    }
  }

  method CheckPages(catalog: Catalog, scope: string, listed: seq<string>, entries: map<string, Key>,
                    ghost features: map<string, Key>)
    returns (ok: bool)
    requires OwnersKnown(catalog, catalog.resources.Keys, entries, features)
    ensures ok <==> PagesOk(catalog, scope, listed)
  {
    var seen: set<string> := {};
    for i := 0 to |listed|
      invariant forall entry :: entry in seen <==> entry in listed[..i]
      invariant forall j :: 0 <= j < i ==>
                            Owners(catalog, listed[j]) != {} && Scope(listed[j]) == scope && listed[j] !in listed[..j]
    {
      KnownEntry(catalog, entries, features, listed[i]);
      if listed[i] !in entries || Scope(listed[i]) != scope || listed[i] in seen { return false; }
      seen := seen + {listed[i]};
      assert listed[..i + 1] == listed[..i] + [listed[i]];
    }
    ok := true;
  }

  lemma KnownEntry(catalog: Catalog, entries: map<string, Key>, features: map<string, Key>, entry: string)
    requires OwnersKnown(catalog, catalog.resources.Keys, entries, features)
    ensures entry in entries <==> Owners(catalog, entry) != {}
  {
    if key :| key in Owners(catalog, entry) {
      assert Owns(catalog, key, entry);
    }
    if entry in entries {
      assert entries[entry] in Owners(catalog, entry);
    }
  }

  method FindPage(catalog: Catalog, scope: string, button: string, entries: map<string, Key>,
                  ghost features: map<string, Key>)
    returns (found: bool)
    requires OwnersKnown(catalog, catalog.resources.Keys, entries, features)
    ensures found <==> HasPage(catalog, scope, button)
  {
    var remaining := entries.Keys;
    while remaining != {}
      invariant remaining <= entries.Keys
      invariant forall entry :: entry in entries && entry !in remaining ==>
                                !(Scope(entries[entry]) == scope && UnderPage(entry, button))
    {
      var entry :| entry in remaining;
      if Scope(entries[entry]) == scope && UnderPage(entry, button) {
        assert Owns(catalog, entries[entry], entry);
        return true;
      }
      remaining := remaining - {entry};
    }
    found := false;
  }

  method CheckButtons(catalog: Catalog, scope: string, listed: seq<string>, entries: map<string, Key>,
                      ghost features: map<string, Key>)
    returns (ok: bool)
    requires OwnersKnown(catalog, catalog.resources.Keys, entries, features)
    ensures ok <==> ButtonsOk(catalog, scope, listed)
  {
    var seen: set<string> := {};
    for i := 0 to |listed|
      invariant forall button :: button in seen <==> button in listed[..i]
      invariant forall j :: 0 <= j < i ==>
                            CatalogKey(listed[j], 5, 128) && HasPage(catalog, scope, listed[j]) &&
                                listed[j] !in listed[..j]
    {
      var found := FindPage(catalog, scope, listed[i], entries, features);
      if !CatalogKey(listed[i], 5, 128) || !found || listed[i] in seen { return false; }
      seen := seen + {listed[i]};
      assert listed[..i + 1] == listed[..i] + [listed[i]];
    }
    ok := true;
  }

  method CheckEndpoints(feature: Feature) returns (ok: bool)
    ensures ok <==> && (forall i :: 0 <= i < |feature.http| ==> HttpOk(feature.http[i]))
                    && (forall i :: 0 <= i < |feature.grpc| ==> RpcOk(feature.grpc[i]))
  {
    for i := 0 to |feature.http|
      invariant forall j :: 0 <= j < i ==> HttpOk(feature.http[j])
    {
      if !HttpOk(feature.http[i]) { return false; }
    }
    for i := 0 to |feature.grpc|
      invariant forall j :: 0 <= j < i ==> RpcOk(feature.grpc[j])
    {
      if !RpcOk(feature.grpc[i]) { return false; }
    }
    ok := true;
  }

  method CheckFeature(catalog: Catalog, name: string, entries: map<string, Key>, features: map<string, Key>)
    returns (ok: bool)
    requires name in catalog.buttons && OwnersKnown(catalog, catalog.resources.Keys, entries, features)
    ensures ok <==> FeatureOk(catalog, name)
  {
    hide PagesOk, ButtonsOk, HttpOk, RpcOk, CatalogKey, SegmentOk;
    var feature := catalog.buttons[name];
    if !CatalogKey(name, 4, 128) || name !in features { return false; }
    if feature.permissionResource != "" && !SegmentOk(feature.permissionResource) { return false; }
    var scope := Scope(features[name]);
    assert Uses(catalog, features[name], name);
    assert forall owner :: Uses(catalog, owner, name) ==> owner == features[name];
    ok := CheckPages(catalog, scope, feature.entryKeys, entries, features);
    if !ok { return; }
    ok := CheckButtons(catalog, scope, feature.buttons, entries, features);
    if !ok { return; }
    ok := CheckEndpoints(feature);
  }

  // ----- The graph -----

  function AddEdge(edges: Edges, from: Key, to: Key): Edges {
    edges[from := Targets(edges, from) + [to]]
  }

  lemma AddsOneEdge(edges: Edges, from: Key, to: Key)
    ensures forall key, target :: target in Targets(AddEdge(edges, from, to), key)
                             <==> (target in Targets(edges, key) || (key == from && target == to))
  {
  }

  /** The links contributed by a set of nodes. */
  ghost predicate LinkedBy(catalog: Catalog, done: set<Key>, from: Key, to: Key) {
    || (from != "" && to in done && to in catalog.resources && catalog.resources[to].parent == from)
    || (from in done && from in catalog.resources && to in catalog.resources[from].references)
  }

  method AddEdges(catalog: Catalog, key: Key, edges: Edges) returns (extended: Edges)
    requires key in catalog.resources
    ensures forall from, to :: to in Targets(extended, from)
                          <==> (to in Targets(edges, from) || LinkedBy(catalog, {key}, from, to))
  {
    var node := catalog.resources[key];
    extended := edges;
    if node.parent != "" {
      AddsOneEdge(edges, node.parent, key);
      extended := AddEdge(extended, node.parent, key);
    }
    ghost var withParent := extended;
    for i := 0 to |node.references|
      invariant Targets(extended, key) == Targets(withParent, key) + node.references[..i]
      invariant forall from :: from != key ==> Targets(extended, from) == Targets(withParent, from)
    {
      extended := AddEdge(extended, key, node.references[i]);
    }
    assert node.references[..|node.references|] == node.references;
    forall from, to
      ensures to in Targets(extended, from) <==> (to in Targets(edges, from) || LinkedBy(catalog, {key}, from, to))
    {
      assert to in Targets(withParent, from)
        <==> (to in Targets(edges, from) || (node.parent != "" && from == node.parent && to == key));
    }
  }

  /** One node after the other: its own checks, its links, and the owners of its pages and features. */
  method CheckNode(catalog: Catalog, key: Key) returns (ok: bool)
    requires key in catalog.resources
    ensures ok ==> HeadOk(key, catalog.resources[key]) && ChildrenOrdered(catalog, key) &&
                   ReferencesOk(catalog, key) && ParentOk(catalog, key)
                   && forall target :: target in catalog.resources[key].referenceOperations ==>
                                       SelectionOk(catalog, key, target)
    ensures !ok ==> !Sound(catalog) || HasLoop(catalog)
  {
    hide HeadOk, ChildrenOrdered, ReferencesOk, SelectionOk, EntriesOk, OperationsOk, SingleOwners, FeatureOk;
    if !HeadOk(key, catalog.resources[key]) {
      assert !NodeOk(catalog, key);
      return false;
    }
    ok := CheckChildOrder(catalog, key);
    if !ok {
      assert !NodeOk(catalog, key);
      return;
    }
    ok := CheckReferences(catalog, key);
    if !ok {
      assert !NodeOk(catalog, key);
      return;
    }
    ok := CheckReferenceOperations(catalog, key);
    if !ok {
      assert !NodeOk(catalog, key);
      return;
    }
    ok := CheckParents(catalog, key);
    if ok {
      AncestorsStartWithParent(catalog, key);
    } else if Sound(catalog) {
      assert forall node :: node in catalog.resources ==> NodeOk(catalog, node) && ParentOk(catalog, node);
      var chain :| ParentChain(catalog, chain) && chain[0] == key && |chain| > 1 && !EndOk(catalog, chain);
      BadAncestor(catalog, key, chain);
    }
  }

  method CheckNodes(catalog: Catalog)
    returns (ok: bool, edges: Edges, entries: map<string, Key>, features: map<string, Key>)
    ensures ok ==> (forall key :: key in catalog.resources ==> NodeOk(catalog, key)) && GraphOf(catalog, edges)
    ensures ok ==> OwnersKnown(catalog, catalog.resources.Keys, entries, features)
    ensures !ok ==> !Sound(catalog) || HasLoop(catalog)
  {
    hide NodeOk, HeadOk, ChildrenOrdered, ReferencesOk, SelectionOk, ParentOk, EntriesOk, OperationsOk, Sound,
        HasLoop, Lists;
    edges, entries, features := map[], map[], map[];
    var remaining := catalog.resources.Keys;
    while remaining != {}
      invariant remaining <= catalog.resources.Keys
      invariant forall from, to :: to in Targets(edges, from)
                              <==> LinkedBy(catalog, catalog.resources.Keys - remaining, from, to)
      invariant forall key :: key in catalog.resources && key !in remaining ==> NodeOk(catalog, key)
      invariant OwnersKnown(catalog, catalog.resources.Keys - remaining, entries, features)
    {
      var key :| key in remaining;
      ghost var done := catalog.resources.Keys - remaining;
      ok := CheckNode(catalog, key);
      if !ok { return; }
      edges := AddEdges(catalog, key, edges);
      var moreEntries, moreFeatures;
      ok, moreEntries := CheckEntries(key, catalog.resources[key], entries);
      if !ok {
        NodeRefused(catalog, done, entries, features, key);
        return;
      }
      ok, moreFeatures := CheckOperations(catalog, key, catalog.resources[key], features);
      if !ok {
        NodeRefused(catalog, done, entries, features, key);
        return;
      }
      NodeAccepted(catalog, key);
      NodeAdded(catalog, done, entries, features, key, moreEntries, moreFeatures);
      entries, features := moreEntries, moreFeatures;
      remaining := remaining - {key};
      assert catalog.resources.Keys - remaining == done + {key};
    }
    assert catalog.resources.Keys - remaining == catalog.resources.Keys;
    ok := true;
  }

  lemma NodeAccepted(catalog: Catalog, key: Key)
    requires key in catalog.resources
    requires HeadOk(key, catalog.resources[key]) && ChildrenOrdered(catalog, key) && ReferencesOk(catalog, key) &&
             ParentOk(catalog, key)
    requires forall target :: target in catalog.resources[key].referenceOperations ==> SelectionOk(catalog, key, target)
    requires EntriesOk(key, catalog.resources[key]) && OperationsOk(catalog, key, catalog.resources[key])
    ensures NodeOk(catalog, key)
  {
  }

  lemma NodeRefused(catalog: Catalog, done: set<Key>, entries: map<string, Key>, features: map<string, Key>, key: Key)
    requires OwnersKnown(catalog, done, entries, features) && key in catalog.resources && key !in done
    requires !(EntriesOk(key, catalog.resources[key]) &&
               forall entry :: entry in catalog.resources[key].entries ==> entry !in entries)
          || !(&& OperationsOk(catalog, key, catalog.resources[key])
               && forall feature :: Lists(catalog.resources[key], feature) ==> feature !in features)
    ensures !Sound(catalog)
  {
    hide EntriesOk, OperationsOk, Lists, SingleOwners, OwnersKnown, FeatureOk;
    if Sound(catalog) {
      assert NodeOk(catalog, key);
      TakenTwice(catalog, done, entries, features, key);
    }
  }

  lemma OwnersAreSingle(catalog: Catalog, entries: map<string, Key>, features: map<string, Key>)
    requires OwnersKnown(catalog, catalog.resources.Keys, entries, features)
    ensures SingleOwners(catalog)
  {
    hide Lists;
  }

  /** Accepts exactly the catalogs whose keys lie in the listed scopes, whose nodes and features are sound, and whose
      links form no loop. */
  method Validate(scopes: seq<string>, catalog: Catalog) returns (ok: bool)
    ensures ok <==> ScopesListed(scopes, catalog) && Sound(catalog) && !HasLoop(catalog)
  {
    hide ScopesOk, NodeOk, FeatureOk, SingleOwners, HasLoop, OwnersKnown, GraphOf;
    ok := CheckScopes(scopes);
    if !ok || exists key :: key in catalog.resources && Scope(key) !in scopes { return false; }
    var edges, entries, features;
    ok, edges, entries, features := CheckNodes(catalog);
    if !ok { return; }
    OwnersAreSingle(catalog, entries, features);
    LoopsAreCycles(catalog, edges);
    EdgesStartAtNodes(catalog, edges);
    ok := CheckAcyclic(edges, catalog.resources.Keys);
    if !ok { return; }
    var remaining := catalog.buttons.Keys;
    while remaining != {}
      invariant remaining <= catalog.buttons.Keys
      invariant forall name :: name in catalog.buttons && name !in remaining ==> FeatureOk(catalog, name)
    {
      var name :| name in remaining;
      ok := CheckFeature(catalog, name, entries, features);
      if !ok { return; }
      remaining := remaining - {name};
    }
    ok := true;
  }

  lemma EdgesStartAtNodes(catalog: Catalog, edges: Edges)
    requires GraphOf(catalog, edges)
    requires forall key :: key in catalog.resources ==> NodeOk(catalog, key)
    ensures forall key :: Targets(edges, key) != [] ==> key in catalog.resources
  {
    forall key | Targets(edges, key) != [] ensures key in catalog.resources {
      assert Linked(catalog, key, Targets(edges, key)[0]);
    }
  }

  lemma StepKeepsScope(catalog: Catalog, from: Key, to: Key, operation: string)
    requires Sound(catalog) && Step(catalog, from, to, operation)
    ensures to in catalog.resources && ':' in to && Scope(to) == Scope(from)
  {
    KeyHasColon(from, catalog.resources[from]);
    assert from != "";
    if !(to in catalog.resources && catalog.resources[to].parent == from) {
      var i :| 0 <= i < |catalog.resources[from].references| && catalog.resources[from].references[i] == to;
      assert ReferenceOk(catalog, from, i);
    }
    KeyHasColon(to, catalog.resources[to]);
  }

  /** On a validated catalog a directory expands to nothing exactly when it does not support the operation. */
  lemma ExpansionMatchesSupport(catalog: Catalog, owner: Key, operation: string, bindings: seq<ResourceBinding>)
    requires Sound(catalog) && owner in catalog.resources && operation != "*"
    requires Expands(catalog, owner, operation, bindings)
    ensures bindings != [] <==> Supported(catalog, operation, {}, owner)
  {
    KeyHasColon(owner, catalog.resources[owner]);
    forall from, to, step | Step(catalog, from, to, step) && to in catalog.resources
      ensures ':' in to && Scope(to) == Scope(from)
    {
      StepKeepsScope(catalog, from, to, step);
    }
    ExpandsIffSupported(catalog, owner, operation, bindings);
  }

  /** Every binding of an expansion can be resolved in the owner's scope. */
  lemma ExpandedBindingsResolve(catalog: Catalog, owner: Key, operation: string, bindings: seq<ResourceBinding>,
                                binding: ResourceBinding)
    requires Sound(catalog) && Expands(catalog, owner, operation, bindings) && binding in bindings
    ensures ResolveBinding(catalog, Scope(owner), binding.resourceKey, binding.operation, binding.featureKeys,
                           None).Some?
  {
    assert Expected(catalog, Scope(owner), Allowed(operation), {}, owner, binding);
    var key := binding.resourceKey;
    var trail :| Connects(catalog, KeysInScope(catalog, Scope(owner)), binding.operation, {}, trail, owner, key);
    assert trail[|trail| - 1] in KeysInScope(catalog, Scope(owner));
    assert NodeOk(catalog, key);
    assert OperationOk(catalog, key, catalog.resources[key], binding.operation);
    assert binding.operation != "*";
    RegisteredWhenDistinct(catalog, catalog.resources[key].operations[binding.operation]);
  }

  lemma RegisteredWhenDistinct(catalog: Catalog, binding: OperationBinding)
    requires DistinctAmong(binding.buttonKeys, catalog.buttons.Keys)
    ensures Registered(catalog, binding, binding.buttonKeys)
  {
    forall i, j | 0 <= i < j < |binding.buttonKeys| ensures binding.buttonKeys[i] != binding.buttonKeys[j] {
      assert binding.buttonKeys[i] in binding.buttonKeys[..j];
    }
  }
}
