/**
The loops that resolve an operation, a scope or a default selection.
*/
module GrantLoops {
  import opened Options
  import opened ResourceCatalog
  import opened Ordering
  import opened Grants
  import CatalogValidation

  // Features

  lemma {:induction false} OneMoreScope(catalog: Catalog, operation: string, features: seq<string>, feature: string)
    requires forall known :: known in features + [feature] ==> known in catalog.buttons
    ensures feature in features + [feature]
    ensures FeatureScopes(catalog, operation, features + [feature])
         == FeatureScopes(catalog, operation, features) + FeatureScopes(catalog, operation, [feature])
  {
    assert (features + [feature])[|features|] == feature;
    if features == [] {
      assert [] + [feature] == [feature];
    } else {
      assert (features + [feature])[0] == features[0] && (features + [feature])[1..] == features[1..] + [feature];
      OneMoreScope(catalog, operation, features[1..], feature);
    }
  }

  lemma {:induction false} OneMoreButtons(catalog: Catalog, features: seq<string>, feature: string)
    requires forall known :: known in features + [feature] ==> known in catalog.buttons
    ensures feature in features + [feature]
    ensures FeatureButtons(catalog, features + [feature]) ==
        FeatureButtons(catalog, features) + FeatureButtons(catalog, [feature])
  {
    assert (features + [feature])[|features|] == feature;
    if features == [] {
      assert [] + [feature] == [feature];
    } else {
      assert (features + [feature])[0] == features[0] && (features + [feature])[1..] == features[1..] + [feature];
      OneMoreButtons(catalog, features[1..], feature);
    }
  }

  lemma {:induction false} OneMoreEndpoints(catalog: Catalog, features: seq<string>, feature: string, fields: Fields)
    requires forall known :: known in features + [feature] ==> known in catalog.buttons
    ensures feature in features + [feature]
    ensures FeatureEndpoints(catalog, features + [feature], fields)
         == FeatureEndpoints(catalog, features, fields) + FeatureEndpoints(catalog, [feature], fields)
  {
    assert (features + [feature])[|features|] == feature;
    if features == [] {
      assert [] + [feature] == [feature];
    } else {
      assert (features + [feature])[0] == features[0] && (features + [feature])[1..] == features[1..] + [feature];
      hide HttpEndpoints, GrpcEndpoints;
      OneMoreEndpoints(catalog, features[1..], feature, fields);
    }
  }

  lemma SingleFeature(catalog: Catalog, operation: string, feature: string)
    requires feature in catalog.buttons
    ensures FeatureScopes(catalog, operation, [feature])
         == if catalog.buttons[feature].permissionResource != ""
             then [catalog.buttons[feature].permissionResource + ":" + operation] else []
    ensures FeatureButtons(catalog, [feature]) == catalog.buttons[feature].buttons
  {
    assert [feature][1..] == [];
  }

  method AddHttp(endpoints: set<Endpoint>, feature: Feature) returns (more: set<Endpoint>)
    ensures more == endpoints + HttpEndpoints(feature)
  {
    more := endpoints;
    for n := 0 to |feature.http|
      invariant more == endpoints + set http | http in feature.http[..n] :: Endpoint("http", http.method_, http.path)
    {
      assert feature.http[..n + 1] == feature.http[..n] + [feature.http[n]];
      more := more + {Endpoint("http", feature.http[n].method_, feature.http[n].path)};
    }
    assert feature.http[..|feature.http|] == feature.http;
  }

  method AddGrpc(endpoints: set<Endpoint>, feature: Feature) returns (more: set<Endpoint>)
    ensures more == endpoints + GrpcEndpoints(feature)
  {
    more := endpoints;
    for n := 0 to |feature.grpc|
      invariant more == endpoints + set path | path in feature.grpc[..n] :: Endpoint("grpc", "GRPC", path)
    {
      assert feature.grpc[..n + 1] == feature.grpc[..n] + [feature.grpc[n]];
      more := more + {Endpoint("grpc", "GRPC", feature.grpc[n])};
    }
    assert feature.grpc[..|feature.grpc|] == feature.grpc;
  }

  method AddNames(names: set<string>, listed: seq<string>) returns (more: set<string>)
    ensures more == names + set name | name in listed
  {
    more := names;
    for n := 0 to |listed|
      invariant more == names + set name | name in listed[..n]
    {
      assert listed[..n + 1] == listed[..n] + [listed[n]];
      more := more + {listed[n]};
    }
    assert listed[..|listed|] == listed;
  }

  /** What the loop over the features of one operation collects; pages and buttons only when they are asked for. */
  datatype Collected = Collected(scopes: seq<string>, buttons: seq<string>, pages: set<string>,
                                 endpoints: set<Endpoint>)

  ghost predicate Collects(catalog: Catalog, operation: string, features: seq<string>, fields: Fields,
                           collected: Collected)
  {
    && (forall feature :: feature in features ==> feature in catalog.buttons)
    && collected.scopes == FeatureScopes(catalog, operation, features)
    && collected.endpoints == FeatureEndpoints(catalog, features, fields)
    && (HasField(fields, "ui") ==>
          collected.buttons == FeatureButtons(catalog, features) && collected.pages == FeaturePages(catalog, features))
  }

  method CollectOne(catalog: Catalog, operation: string, ghost features: seq<string>, feature: string, fields: Fields,
                    before: Collected)
    returns (after: Collected)
    requires Collects(catalog, operation, features, fields, before) && feature in catalog.buttons
    ensures Collects(catalog, operation, features + [feature], fields, after)
  {
    OneMoreScope(catalog, operation, features, feature);
    OneMoreButtons(catalog, features, feature);
    OneMoreEndpoints(catalog, features, feature, fields);
    SingleFeature(catalog, operation, feature);
    hide FeatureScopes, FeatureButtons, FeatureEndpoints, FeaturePages;
    var added := catalog.buttons[feature];
    after := before;
    if added.permissionResource != "" {
      after := after.(scopes := after.scopes + [added.permissionResource + ":" + operation]);
    }
    if HasField(fields, "ui") {
      var pages := AddNames(after.pages, added.entryKeys);
      PagesGrow(catalog, features, feature);
      after := after.(buttons := after.buttons + added.buttons, pages := pages);
    }
    var endpoints := EndpointsOf(catalog, feature, fields);
    after := after.(endpoints := after.endpoints + endpoints);
  }

  method EndpointsOf(catalog: Catalog, feature: string, fields: Fields) returns (endpoints: set<Endpoint>)
    requires feature in catalog.buttons
    ensures endpoints == FeatureEndpoints(catalog, [feature], fields)
  {
    OneFeatureEndpoints(catalog, feature, fields);
    hide FeatureEndpoints, HttpEndpoints, GrpcEndpoints;
    endpoints := {};
    if HasField(fields, "http") {
      endpoints := AddHttp(endpoints, catalog.buttons[feature]);
    }
    if HasField(fields, "grpc") {
      endpoints := AddGrpc(endpoints, catalog.buttons[feature]);
    }
  }

  lemma PagesGrow(catalog: Catalog, features: seq<string>, feature: string)
    requires forall known :: known in features + [feature] ==> known in catalog.buttons
    ensures feature in catalog.buttons
    ensures FeaturePages(catalog, features + [feature])
         == FeaturePages(catalog, features) + set name | name in catalog.buttons[feature].entryKeys
  {
    assert feature in features + [feature];
  }

  lemma OneFeatureEndpoints(catalog: Catalog, feature: string, fields: Fields)
    requires feature in catalog.buttons
    ensures FeatureEndpoints(catalog, [feature], fields)
         == (if HasField(fields, "http") then HttpEndpoints(catalog.buttons[feature]) else {})
            + (if HasField(fields, "grpc") then GrpcEndpoints(catalog.buttons[feature]) else {})
  {
    assert [feature][1..] == [];
  }

  /** Refuses the first feature that is unknown, outside the operation or repeated. */
  method CollectFeatures(catalog: Catalog, binding: OperationBinding, operation: string, features: seq<string>,
                         fields: Fields)
    returns (ok: bool, collected: Collected)
    ensures ok <==> Registered(catalog, binding, features)
    ensures ok ==> Collects(catalog, operation, features, fields, collected)
  {
    hide Collects;
    collected := Collected([], [], {}, {});
    NothingCollected(catalog, operation, fields);
    var seen: set<string> := {};
    for n := 0 to |features|
      invariant Registered(catalog, binding, features[..n])
      invariant forall feature :: feature in seen <==> feature in features[..n]
      invariant Collects(catalog, operation, features[..n], fields, collected)
    {
      var feature := features[n];
      assert features[..n + 1] == features[..n] + [feature];
      if feature !in catalog.buttons || feature !in binding.buttonKeys || feature in seen {
        return false, collected;
      }
      seen := seen + {feature};
      collected := CollectOne(catalog, operation, features[..n], feature, fields, collected);
    }
    assert features[..|features|] == features;
    ok := true;
  }

  lemma NothingCollected(catalog: Catalog, operation: string, fields: Fields)
    ensures Collects(catalog, operation, [], fields, Collected([], [], {}, {}))
  {
  }

  // Pages

  ghost predicate Referenced(entry: string, pages: set<string>, buttons: seq<string>) {
    entry in pages || exists button :: button in buttons && ButtonOf(entry, button)
  }

  method IsReferenced(entry: string, pages: set<string>, buttons: seq<string>) returns (referenced: bool)
    ensures referenced <==> Referenced(entry, pages, buttons)
  {
    referenced := entry in pages;
    for n := 0 to |buttons|
      invariant referenced <==> entry in pages || exists i :: 0 <= i < n && ButtonOf(entry, buttons[i])
    {
      referenced := referenced || ButtonOf(entry, buttons[n]);
    }
  }

  method GatherOwner(node: Node, pages: set<string>, buttons: seq<string>, gathered: map<string, Entry>)
    returns (more: map<string, Entry>)
    ensures more.Keys == gathered.Keys + set entry | entry in node.entries && Referenced(entry, pages, buttons)
    ensures forall entry :: entry in more ==>
              (entry in gathered && more[entry] == gathered[entry]) ||
                  (entry in node.entries && more[entry] == node.entries[entry])
  {
    hide Referenced;
    more := gathered;
    var remaining := node.entries.Keys;
    while remaining != {}
      invariant remaining <= node.entries.Keys
      invariant more.Keys == gathered.Keys + set entry | entry in node.entries.Keys - remaining &&
                Referenced(entry, pages, buttons)
      invariant forall entry :: entry in more ==>
                  (entry in gathered && more[entry] == gathered[entry]) ||
                      (entry in node.entries && more[entry] == node.entries[entry])
    {
      var entry :| entry in remaining;
      remaining := remaining - {entry};
      var referenced := IsReferenced(entry, pages, buttons);
      if referenced {
        more := more[entry := node.entries[entry]];
      }
    }
  }

  /** The entries gathered from the resource itself and from some owners. */
  ghost predicate Gathered(catalog: Catalog, key: Key, pages: set<string>, buttons: seq<string>, owners: set<Key>,
                           gathered: map<string, Entry>)
    requires key in catalog.resources
  {
    && (forall entry :: entry in gathered <==>
          entry in catalog.resources[key].entries
          || exists owner :: owner in owners && owner in catalog.resources && entry in catalog.resources[owner].entries
                             && Referenced(entry, pages, buttons))
    && (forall entry :: entry in gathered ==> Owned(catalog, entry, gathered[entry]))
  }

  ghost predicate Owned(catalog: Catalog, name: string, entry: Entry) {
    exists owner :: owner in catalog.resources && name in catalog.resources[owner].entries &&
                    catalog.resources[owner].entries[name] == entry
  }

  /** Validation refuses an entry with two owners. */
  ghost predicate OneOwnerEach(catalog: Catalog) {
    forall entry, a, b :: a in Owners(catalog, entry) && b in Owners(catalog, entry) ==> a == b
  }

  /** A catalog that passes validation does so. */
  lemma SoundHasOneOwnerEach(catalog: Catalog)
    ensures CatalogValidation.Sound(catalog) ==> OneOwnerEach(catalog)
  {
    hide CatalogValidation.NodeOk, CatalogValidation.FeatureOk;
    if CatalogValidation.Sound(catalog) {
      forall entry, a, b | a in Owners(catalog, entry) && b in Owners(catalog, entry) ensures a == b {
        assert CatalogValidation.Owns(catalog, a, entry) && CatalogValidation.Owns(catalog, b, entry);
      }
    }
  }

  lemma OwnerIsGathered(catalog: Catalog, key: Key, pages: set<string>, buttons: seq<string>, owners: set<Key>,
                        owner: Key,
                        gathered: map<string, Entry>, more: map<string, Entry>)
    requires key in catalog.resources && owner in catalog.resources
    requires Gathered(catalog, key, pages, buttons, owners, gathered)
    requires more.Keys == gathered.Keys + set entry | entry in catalog.resources[owner].entries &&
             Referenced(entry, pages, buttons)
    requires forall entry :: entry in more ==>
               || (entry in gathered && more[entry] == gathered[entry])
               || (entry in catalog.resources[owner].entries && more[entry] == catalog.resources[owner].entries[entry])
    ensures Gathered(catalog, key, pages, buttons, owners + {owner}, more)
  {
    hide Referenced;
    forall entry | entry in more ensures Owned(catalog, entry, more[entry]) {
      if !(entry in gathered && more[entry] == gathered[entry]) {
        assert owner in catalog.resources && entry in catalog.resources[owner].entries;
      }
    }
  }

  method GatherEntries(catalog: Catalog, key: Key, pages: set<string>, buttons: seq<string>)
    returns (gathered: map<string, Entry>)
    requires key in catalog.resources
    ensures Gathered(catalog, key, pages, buttons, catalog.resources.Keys, gathered)
  {
    hide Gathered, Referenced;
    gathered := catalog.resources[key].entries;
    OwnEntriesGathered(catalog, key, pages, buttons);
    var remaining := catalog.resources.Keys;
    while remaining != {}
      invariant remaining <= catalog.resources.Keys
      invariant Gathered(catalog, key, pages, buttons, catalog.resources.Keys - remaining, gathered)
    {
      var owner :| owner in remaining;
      var more := GatherOwner(catalog.resources[owner], pages, buttons, gathered);
      OwnerIsGathered(catalog, key, pages, buttons, catalog.resources.Keys - remaining, owner, gathered, more);
      assert catalog.resources.Keys - remaining + {owner} == catalog.resources.Keys - (remaining - {owner});
      remaining := remaining - {owner};
      gathered := more;
    }
    assert catalog.resources.Keys - remaining == catalog.resources.Keys;
  }

  lemma OwnEntriesGathered(catalog: Catalog, key: Key, pages: set<string>, buttons: seq<string>)
    requires key in catalog.resources
    ensures Gathered(catalog, key, pages, buttons, catalog.resources.Keys - catalog.resources.Keys,
                     catalog.resources[key].entries)
  {
    assert catalog.resources.Keys - catalog.resources.Keys == {};
  }

  lemma IsShown(catalog: Catalog, key: Key, pages: set<string>, buttons: seq<string>, owner: Key, entry: string)
    requires key in catalog.resources
    requires owner in catalog.resources && entry in catalog.resources[owner].entries &&
             Referenced(entry, pages, buttons)
    ensures entry in ShownEntries(catalog, key, pages, buttons)
  {
    if entry !in pages {
      var button :| button in buttons && ButtonOf(entry, button);
    }
    assert entry in (set holder, name | holder in catalog.resources && name in catalog.resources[holder].entries
                       && (name in pages || exists button :: button in buttons && ButtonOf(name, button)) :: name);
  }

  lemma GatheredAreShown(catalog: Catalog, key: Key, pages: set<string>, buttons: seq<string>,
                         gathered: map<string, Entry>)
    requires key in catalog.resources && Gathered(catalog, key, pages, buttons, catalog.resources.Keys, gathered)
    ensures gathered.Keys == ShownEntries(catalog, key, pages, buttons)
    ensures OneOwnerEach(catalog) ==>
                                  forall entry :: entry in gathered ==>
                                                  Owners(catalog, entry) != {} &&
                                                      gathered[entry] == EntryOf(catalog, entry)
  {
    var shown := ShownEntries(catalog, key, pages, buttons);
    forall entry | entry in gathered && entry !in catalog.resources[key].entries ensures entry in shown {
      var owner :| owner in catalog.resources && entry in catalog.resources[owner].entries &&
                   Referenced(entry, pages, buttons);
      IsShown(catalog, key, pages, buttons, owner, entry);
    }
    forall entry | entry in shown && entry !in catalog.resources[key].entries ensures entry in gathered {
      var owner :| owner in catalog.resources && entry in catalog.resources[owner].entries
                   && (entry in pages || exists button :: button in buttons && ButtonOf(entry, button));
      assert Referenced(entry, pages, buttons);
    }
    if OneOwnerEach(catalog) {
      forall entry | entry in gathered
        ensures Owners(catalog, entry) != {} && gathered[entry] == EntryOf(catalog, entry) {
        assert Owned(catalog, entry, gathered[entry]);
        var owner :| owner in catalog.resources && entry in catalog.resources[owner].entries &&
                     catalog.resources[owner].entries[entry] == gathered[entry];
        assert owner in Owners(catalog, entry);
        StringOrder();
        assert Least(StringBelow, Owners(catalog, entry)) in Owners(catalog, entry);
      }
    }
  }

  method ButtonsOf(entry: string, buttons: seq<string>) returns (own: seq<string>)
    ensures own == Keep(button => ButtonOf(entry, button), buttons)
  {
    own := [];
    for n := 0 to |buttons|
      invariant own == Keep(button => ButtonOf(entry, button), buttons[..n])
    {
      assert buttons[..n + 1] == buttons[..n] + [buttons[n]];
      KeepJoined(button => ButtonOf(entry, button), buttons[..n], [buttons[n]]);
      assert Keep(button => ButtonOf(entry, button), [buttons[n]]) == if ButtonOf(entry, buttons[n]) then [buttons[n]]
          else [];
      if ButtonOf(entry, buttons[n]) {
        own := own + [buttons[n]];
      }
    }
    assert buttons[..|buttons|] == buttons;
  }

  function ShowEntry(catalog: Catalog, name: string, pages: set<string>, buttons: seq<string>): UiBinding
    requires Owners(catalog, name) != {}
  {
    var entry := EntryOf(catalog, name);
    UiBinding(name, entry.parentMenuKey, entry.path, name in pages, Keep(button => ButtonOf(name, button), buttons))
  }

  lemma {:induction false} ShowOneMore(catalog: Catalog, entries: seq<string>, name: string, pages: set<string>,
                                       buttons: seq<string>)
    requires forall entry :: entry in entries + [name] ==> Owners(catalog, entry) != {}
    ensures name in entries + [name]
    ensures ShowEntries(catalog, entries + [name], pages, buttons)
         == ShowEntries(catalog, entries, pages, buttons) + [ShowEntry(catalog, name, pages, buttons)]
  {
    assert (entries + [name])[|entries|] == name;
    if entries == [] {
      assert [] + [name] == [name] && [name][1..] == [];
      assert ShowEntries(catalog, [name], pages, buttons) ==
          [ShowEntry(catalog, name, pages, buttons)] + ShowEntries(catalog, [], pages, buttons);
    } else {
      var all := entries + [name];
      assert all[0] == entries[0] && all[1..] == entries[1..] + [name];
      ShowOneMore(catalog, entries[1..], name, pages, buttons);
      assert entries[0] in entries;
      var first := ShowEntry(catalog, entries[0], pages, buttons);
      assert ShowEntries(catalog, all, pages, buttons) == [first] + ShowEntries(catalog, all[1..], pages, buttons);
      assert ShowEntries(catalog, entries, pages, buttons) ==
          [first] + ShowEntries(catalog, entries[1..], pages, buttons);
    }
  }

  /** Where each entry has one owner, the pages do not depend on the order in which owners and entries are walked. */
  method ListUi(catalog: Catalog, key: Key, pages: set<string>, buttons: seq<string>) returns (ui: seq<UiBinding>)
    requires key in catalog.resources
    ensures OneOwnerEach(catalog) ==>
              ui == ShowEntries(catalog, SortedStrings(ShownEntries(catalog, key, pages, buttons)), pages, buttons)
  {
    hide Gathered, ShowEntries, ShownEntries, OneOwnerEach, Owners;
    var gathered := GatherEntries(catalog, key, pages, buttons);
    GatheredAreShown(catalog, key, pages, buttons, gathered);
    var names := SortedStrings(gathered.Keys);
    NothingShown(catalog, pages, buttons);
    ui := [];
    for n := 0 to |names|
      invariant OneOwnerEach(catalog) ==> ui == ShowEntries(catalog, names[..n], pages, buttons)
    {
      assert names[..n + 1] == names[..n] + [names[n]] && names[n] in names;
      var entry := gathered[names[n]];
      var own := ButtonsOf(names[n], buttons);
      if OneOwnerEach(catalog) {
        ShowOneMore(catalog, names[..n], names[n], pages, buttons);
      }
      ui := ui + [UiBinding(names[n], entry.parentMenuKey, entry.path, names[n] in pages, own)];
    }
    assert names[..|names|] == names;
  }

  lemma NothingShown(catalog: Catalog, pages: set<string>, buttons: seq<string>)
    ensures ShowEntries(catalog, [], pages, buttons) == []
  {
  }

  // One operation

  /** The same refusals for every catalog, and the same grant for every catalog that gives each entry one owner. */
  ghost predicate SameResolution(catalog: Catalog, grant: Option<Grant>, expected: Option<Grant>) {
    (grant.Some? <==> expected.Some?) && (OneOwnerEach(catalog) ==> grant == expected)
  }

  method ResolveOperationByLoops(catalog: Catalog, key: Key, operation: string, selected: Option<seq<string>>,
                                 fields: Fields)
    returns (grant: Option<Grant>)
    ensures SameResolution(catalog, grant, ResolveOperation(catalog, key, operation, selected, fields))
  {
    hide Registered, OneOwnerEach, ShowEntries, ShownEntries, FeatureEndpoints, FeaturePages;
    if key !in catalog.resources || operation !in catalog.resources[key].operations { return None; }
    var binding := catalog.resources[key].operations[operation];
    var features := Chosen(binding, selected);
    var ok, collected := CollectFeatures(catalog, binding, operation, features, fields);
    if !ok { return None; }
    var ui: seq<UiBinding> := [];
    if HasField(fields, "ui") {
      var pages := AddNames(collected.pages, binding.entryKeys);
      ui := ListUi(catalog, key, pages, collected.buttons);
    }
    grant := Some(Grant(collected.scopes, "", ui, SortedEndpoints(collected.endpoints)));
  }

  // A whole scope

  lemma {:induction false} OneMoreOperation(catalog: Catalog, key: Key, operations: seq<string>, operation: string)
    requires key in catalog.resources
    ensures OperationsOf(catalog, key, operations + [operation])
         == OperationsOf(catalog, key, operations)
            + (if operation in catalog.resources[key].operations then [Request(key, operation, None)] else [])
  {
    if operations == [] {
      assert [] + [operation] == [operation] && [operation][1..] == [];
    } else {
      var all := operations + [operation];
      assert all[0] == operations[0] && all[1..] == operations[1..] + [operation];
      OneMoreOperation(catalog, key, operations[1..], operation);
    }
  }

  lemma {:induction false} OneMoreKey(catalog: Catalog, keys: seq<Key>, key: Key)
    requires forall known :: known in keys + [key] ==> known in catalog.resources
    ensures key in keys + [key]
    ensures EveryOperation(catalog, keys + [key]) ==
        EveryOperation(catalog, keys) + OperationsOf(catalog, key, FixedOperations)
  {
    hide OperationsOf;
    assert (keys + [key])[|keys|] == key;
    if keys == [] {
      assert [] + [key] == [key] && [key][1..] == [];
      assert EveryOperation(catalog, [key]) ==
          OperationsOf(catalog, key, FixedOperations) + EveryOperation(catalog, []);
    } else {
      var all := keys + [key];
      assert all[0] == keys[0] && all[1..] == keys[1..] + [key];
      OneMoreKey(catalog, keys[1..], key);
      assert EveryOperation(catalog, all) ==
          OperationsOf(catalog, keys[0], FixedOperations) + EveryOperation(catalog, all[1..]);
      assert EveryOperation(catalog, keys) ==
          OperationsOf(catalog, keys[0], FixedOperations) + EveryOperation(catalog, keys[1..]);
    }
  }

  lemma OneMoreRequest(catalog: Catalog, requests: seq<Request>, request: Request, fields: Fields)
    ensures var before := ResolveEach(catalog, requests, fields);
            var resolved := ResolveOperation(catalog, request.key, request.operation, request.selected, fields);
            ResolveEach(catalog, requests + [request], fields)
            == if before.None? || resolved.None? then None else Some(Join(before.value, resolved.value))
  {
    hide ResolveOperation;
    assert (requests + [request])[..|requests|] == requests;
  }

  lemma {:induction false} OneRefusalRefusesAll(catalog: Catalog, before: seq<Request>, request: Request,
                                                rest: seq<Request>, fields: Fields)
    requires ResolveOperation(catalog, request.key, request.operation, request.selected, fields).None?
    ensures ResolveEach(catalog, before + [request] + rest, fields).None?
    decreases rest
  {
    if rest == [] {
      assert before + [request] + [] == before + [request];
      OneMoreRequest(catalog, before, request, fields);
    } else {
      var init, last := rest[..|rest| - 1], rest[|rest| - 1];
      OneRefusalRefusesAll(catalog, before, request, init, fields);
      assert before + [request] + rest == before + [request] + init + [last];
      OneMoreRequest(catalog, before + [request] + init, last, fields);
    }
  }

  /** The requests resolved one after the other, stopping at the first refusal. */
  ghost predicate ResolvedSoFar(catalog: Catalog, requests: seq<Request>, fields: Fields, joined: Grant) {
    SameResolution(catalog, Some(joined), ResolveEach(catalog, requests, fields))
  }

  method ResolveNext(catalog: Catalog, ghost requests: seq<Request>, request: Request, fields: Fields, joined: Grant)
    returns (ok: bool, more: Grant)
    requires ResolvedSoFar(catalog, requests, fields, joined)
    ensures ok <==> ResolveOperation(catalog, request.key, request.operation, request.selected, fields).Some?
    ensures ok ==> ResolvedSoFar(catalog, requests + [request], fields, more)
  {
    hide ResolveOperation, OneOwnerEach, ResolveEach;
    more := joined;
    var grant := ResolveOperationByLoops(catalog, request.key, request.operation, request.selected, fields);
    OneMoreRequest(catalog, requests, request, fields);
    if grant.None? { return false, more; }
    ok, more := true, Join(joined, grant.value);
  }

  method ResolveKey(catalog: Catalog, ghost requests: seq<Request>, key: Key, fields: Fields, joined: Grant)
    returns (ok: bool, more: Grant)
    requires key in catalog.resources && ResolvedSoFar(catalog, requests, fields, joined)
    ensures ok ==> ResolvedSoFar(catalog, requests + OperationsOf(catalog, key, FixedOperations), fields, more)
    ensures !ok ==> forall rest ::
        ResolveEach(catalog, requests + OperationsOf(catalog, key, FixedOperations) + rest, fields).None?
  {
    hide ResolvedSoFar, ResolveEach, ResolveOperation;
    more := joined;
    ghost var done: seq<Request> := [];
    assert requests + done == requests;
    for n := 0 to |FixedOperations|
      invariant done == OperationsOf(catalog, key, FixedOperations[..n])
      invariant ResolvedSoFar(catalog, requests + done, fields, more)
    {
      var operation := FixedOperations[n];
      assert FixedOperations[..n + 1] == FixedOperations[..n] + [operation];
      OneMoreOperation(catalog, key, FixedOperations[..n], operation);
      if operation !in catalog.resources[key].operations { continue; }
      var request := Request(key, operation, None);
      ok, more := ResolveNext(catalog, requests + done, request, fields, more);
      if !ok {
        forall rest ensures ResolveEach(catalog, requests + OperationsOf(catalog, key, FixedOperations) + rest,
                                        fields).None? {
          RefusedKey(catalog, requests, key, n, rest, fields);
        }
        return;
      }
      assert requests + done + [request] == requests + (done + [request]);
      done := done + [request];
    }
    assert FixedOperations[..|FixedOperations|] == FixedOperations;
    ok := true;
  }

  lemma RefusedKey(catalog: Catalog, requests: seq<Request>, key: Key, n: nat, rest: seq<Request>, fields: Fields)
    requires key in catalog.resources && n < |FixedOperations| &&
             FixedOperations[n] in catalog.resources[key].operations
    requires ResolveOperation(catalog, key, FixedOperations[n], None, fields).None?
    ensures ResolveEach(catalog, requests + OperationsOf(catalog, key, FixedOperations) + rest, fields).None?
  {
    hide ResolveOperation, ResolveEach;
    var request := Request(key, FixedOperations[n], None);
    OneMoreOperation(catalog, key, FixedOperations[..n], FixedOperations[n]);
    var before := OperationsOf(catalog, key, FixedOperations[..n]);
    var tail := OperationsTail(catalog, key, FixedOperations, n + 1);
    assert FixedOperations[..n + 1] == FixedOperations[..n] + [FixedOperations[n]];
    assert requests + OperationsOf(catalog, key, FixedOperations) + rest ==
        (requests + before) + [request] + (tail + rest);
    OneRefusalRefusesAll(catalog, requests + before, request, tail + rest, fields);
  }

  lemma {:induction false} OperationsTail(catalog: Catalog, key: Key, operations: seq<string>, n: nat)
    returns (tail: seq<Request>)
    requires key in catalog.resources && n <= |operations|
    ensures OperationsOf(catalog, key, operations) == OperationsOf(catalog, key, operations[..n]) + tail
    decreases |operations| - n
  {
    if n == |operations| {
      assert operations[..n] == operations;
      tail := [];
    } else {
      var rest := OperationsTail(catalog, key, operations, n + 1);
      assert operations[..n + 1] == operations[..n] + [operations[n]];
      OneMoreOperation(catalog, key, operations[..n], operations[n]);
      tail := (if operations[n] in catalog.resources[key].operations then [Request(key, operations[n], None)]
               else []) + rest;
    }
  }

  lemma {:induction false} EveryTail(catalog: Catalog, keys: seq<Key>, n: nat) returns (tail: seq<Request>)
    requires (forall key :: key in keys ==> key in catalog.resources) && n <= |keys|
    ensures EveryOperation(catalog, keys) == EveryOperation(catalog, keys[..n]) + tail
    decreases |keys| - n
  {
    if n == |keys| {
      assert keys[..n] == keys;
      tail := [];
    } else {
      var rest := EveryTail(catalog, keys, n + 1);
      assert keys[..n + 1] == keys[..n] + [keys[n]] && keys[n] in keys;
      OneMoreKey(catalog, keys[..n], keys[n]);
      tail := OperationsOf(catalog, keys[n], FixedOperations) + rest;
    }
  }

  method ResolveKeys(catalog: Catalog, keys: seq<Key>, fields: Fields) returns (ok: bool, joined: Grant)
    requires forall key :: key in keys ==> key in catalog.resources
    ensures ok ==> ResolvedSoFar(catalog, EveryOperation(catalog, keys), fields, joined)
    ensures !ok ==> ResolveEach(catalog, EveryOperation(catalog, keys), fields).None?
  {
    hide ResolvedSoFar, ResolveEach, EveryOperation, OperationsOf;
    joined := NoGrant;
    NothingResolved(catalog, fields);
    for n := 0 to |keys|
      invariant ResolvedSoFar(catalog, EveryOperation(catalog, keys[..n]), fields, joined)
    {
      assert keys[..n + 1] == keys[..n] + [keys[n]] && keys[n] in keys;
      OneMoreKey(catalog, keys[..n], keys[n]);
      ok, joined := ResolveKey(catalog, EveryOperation(catalog, keys[..n]), keys[n], fields, joined);
      if !ok {
        ghost var tail := EveryTail(catalog, keys, n + 1);
        return;
      }
    }
    assert keys[..|keys|] == keys;
    ok := true;
  }

  lemma NothingResolved(catalog: Catalog, fields: Fields)
    ensures ResolvedSoFar(catalog, EveryOperation(catalog, []), fields, NoGrant)
  {
  }

  lemma {:induction false} MarkedPage(ui: seq<UiBinding>, i: nat)
    requires i < |ui|
    ensures |MarkPages(ui)| == |ui| && MarkPages(ui)[i] == ui[i].(pageEntry := true)
  {
    if i > 0 {
      MarkedPage(ui[1..], i - 1);
    } else if |ui| > 1 {
      MarkedPage(ui[1..], 0);
    }
  }

  method MarkEveryPage(ui: seq<UiBinding>) returns (marked: seq<UiBinding>, present: set<string>)
    ensures marked == MarkPages(ui)
    ensures present == set shown | shown in marked :: shown.menuKey
  {
    marked, present := ui, {};
    for n := 0 to |ui|
      invariant |marked| == |ui|
      invariant forall i :: 0 <= i < |ui| ==> marked[i] == if i < n then ui[i].(pageEntry := true) else ui[i]
      invariant present == set i | 0 <= i < n :: ui[i].menuKey
    {
      marked := marked[n := marked[n].(pageEntry := true)];
      present := present + {marked[n].menuKey};
    }
    assert |MarkPages(ui)| == |ui| by {
      if ui != [] { MarkedPage(ui, 0); }
    }
    forall i | 0 <= i < |ui| ensures marked[i] == MarkPages(ui)[i] {
      MarkedPage(ui, i);
    }
    forall key ensures key in present <==> key in (set shown | shown in marked :: shown.menuKey) {
      if key in present {
        var i :| 0 <= i < |ui| && ui[i].menuKey == key;
        assert marked[i] in marked;
      }
    }
  }

  lemma MissingNext(node: Node, names: seq<string>, n: nat, present: set<string>)
    requires n < |names| && forall name :: name in names ==> name in node.entries
    ensures names[n] in names
    ensures MissingEntries(node, names[n..], present)
         == if names[n] in present then MissingEntries(node, names[n + 1..], present)
            else [UiBinding(names[n], node.entries[names[n]].parentMenuKey, node.entries[names[n]].path, true, [])]
                 + MissingEntries(node, names[n + 1..], present + {names[n]})
  {
    assert names[n..][1..] == names[n + 1..] && names[n..][0] == names[n];
  }

  lemma NothingMissing(node: Node, present: set<string>)
    ensures MissingEntries(node, [], present) == []
  {
  }

  lemma NoPageMissing(catalog: Catalog, present: set<string>)
    ensures MissingPages(catalog, [], present) == []
  {
  }

  lemma AppendOne(added: seq<UiBinding>, page: UiBinding, rest: seq<UiBinding>)
    ensures added + ([page] + rest) == added + [page] + rest
  {
  }

  method AddMissingEntries(node: Node, present: set<string>) returns (added: seq<UiBinding>, more: set<string>)
    ensures added == MissingEntries(node, SortedStrings(node.entries.Keys), present)
    ensures more == present + node.entries.Keys
  {
    hide MissingEntries, SortedStrings;
    var names := SortedStrings(node.entries.Keys);
    added, more := [], present;
    assert names[0..] == names;
    for n := 0 to |names|
      invariant forall name :: name in more <==> name in present || name in names[..n]
      invariant added + MissingEntries(node, names[n..], more) == MissingEntries(node, names, present)
    {
      var name := names[n];
      assert names[..n + 1] == names[..n] + [name];
      MissingNext(node, names, n, more);
      if name !in more {
        var entry := node.entries[name];
        var page := UiBinding(name, entry.parentMenuKey, entry.path, true, []);
        AppendOne(added, page, MissingEntries(node, names[n + 1..], more + {name}));
        added := added + [page];
        more := more + {name};
      }
    }
    NothingMissing(node, more);
    assert names[..|names|] == names && names[|names|..] == [] && added + [] == added;
  }

  lemma MissingPagesNext(catalog: Catalog, keys: seq<Key>, n: nat, present: set<string>)
    requires n < |keys| && forall key :: key in keys ==> key in catalog.resources
    ensures keys[n] in keys
    ensures var node := catalog.resources[keys[n]];
            MissingPages(catalog, keys[n..], present)
            == MissingEntries(node, SortedStrings(node.entries.Keys), present) +
                MissingPages(catalog, keys[n + 1..], present + node.entries.Keys)
  {
    assert keys[n..][1..] == keys[n + 1..] && keys[n..][0] == keys[n];
  }

  method AddMissingPages(catalog: Catalog, keys: seq<Key>, present: set<string>) returns (added: seq<UiBinding>)
    requires forall key :: key in keys ==> key in catalog.resources
    ensures added == MissingPages(catalog, keys, present)
  {
    hide MissingEntries, MissingPages;
    added := [];
    var known := present;
    assert keys[0..] == keys;
    for n := 0 to |keys|
      invariant added + MissingPages(catalog, keys[n..], known) == MissingPages(catalog, keys, present)
    {
      MissingPagesNext(catalog, keys, n, known);
      var more, next := AddMissingEntries(catalog.resources[keys[n]], known);
      added := added + more;
      known := next;
    }
    NoPageMissing(catalog, known);
    assert keys[|keys|..] == [] && added + [] == added;
  }

  method ResolveAllByLoops(catalog: Catalog, scope: string, fields: Fields) returns (grant: Option<Grant>)
    ensures SameResolution(catalog, grant, ResolveAll(catalog, scope, fields))
    ensures CatalogValidation.Sound(catalog) ==> grant == ResolveAll(catalog, scope, fields)
  {
    SoundHasOneOwnerEach(catalog);
    hide CatalogValidation.Sound, ResolveEach, EveryOperation, MarkPages, MissingPages, OneOwnerEach;
    var keys := SortedStrings(set key | key in catalog.resources && InScope(key, scope));
    var ok, joined := ResolveKeys(catalog, keys, fields);
    if !ok { return None; }
    var ui := joined.ui;
    if HasField(fields, "ui") {
      var marked, present := MarkEveryPage(joined.ui);
      var missing := AddMissingPages(catalog, keys, present);
      ui := marked + missing;
    }
    grant := Some(Grant([], "*", ui, joined.endpoints));
  }

  // The default selection

  lemma {:induction false} OneMoreRead(catalog: Catalog, keys: seq<Key>, key: Key, selected: Option<seq<string>>)
    requires forall known :: known in keys + [key] ==>
                             known in catalog.resources && "read" in catalog.resources[known].operations
    ensures key in keys + [key]
    ensures ReadRequests(catalog, keys + [key], selected) ==
        ReadRequests(catalog, keys, selected) + ReadRequests(catalog, [key], selected)
  {
    assert (keys + [key])[|keys|] == key;
    if keys == [] {
      assert [] + [key] == [key];
    } else {
      var all := keys + [key];
      assert all[0] == keys[0] && all[1..] == keys[1..] + [key];
      OneMoreRead(catalog, keys[1..], key, selected);
    }
  }

  ghost predicate ReadableKeys(catalog: Catalog, scope: string, keys: seq<Key>) {
    && (forall i :: 0 <= i < |keys| ==>
          && keys[i] in catalog.resources
          && catalog.resources[keys[i]].kind == "resource"
          && InScope(keys[i], scope)
          && "read" in catalog.resources[keys[i]].operations)
    && (forall i, j :: 0 <= i < j < |keys| ==> keys[i] != keys[j])
  }

  method CheckKeys(catalog: Catalog, scope: string, keys: seq<Key>) returns (ok: bool, allowed: set<string>)
    ensures ok <==> ReadableKeys(catalog, scope, keys)
    ensures ok ==> forall feature :: feature in allowed <==> AllowedBy(catalog, keys, feature)
  {
    allowed := {};
    var seen: set<Key> := {};
    for n := 0 to |keys|
      invariant ReadableKeys(catalog, scope, keys[..n])
      invariant forall key :: key in seen <==> key in keys[..n]
      invariant forall feature :: feature in allowed <==> AllowedBy(catalog, keys[..n], feature)
    {
      var key := keys[n];
      assert keys[..n + 1] == keys[..n] + [key];
      if key !in catalog.resources || catalog.resources[key].kind != "resource" || !InScope(key, scope)
         || "read" !in catalog.resources[key].operations || key in seen {
        return false, allowed;
      }
      seen := seen + {key};
      var before := allowed;
      allowed := AddNames(allowed, catalog.resources[key].operations["read"].buttonKeys);
      forall feature ensures feature in allowed <==> AllowedBy(catalog, keys[..n + 1], feature) {
        assert feature in before <==> AllowedBy(catalog, keys[..n], feature);
        assert key in keys[..n + 1];
      }
    }
    assert keys[..|keys|] == keys;
    ok := true;
  }

  method CheckSelected(allowed: set<string>, selected: seq<string>) returns (ok: bool)
    ensures ok <==> (forall i :: 0 <= i < |selected| ==> selected[i] in allowed)
                    && forall i, j :: 0 <= i < j < |selected| ==> selected[i] != selected[j]
  {
    var seen: set<string> := {};
    for n := 0 to |selected|
      invariant forall i :: 0 <= i < n ==> selected[i] in allowed
      invariant forall i, j :: 0 <= i < j < n ==> selected[i] != selected[j]
      invariant forall feature :: feature in seen <==> feature in selected[..n]
    {
      if selected[n] !in allowed || selected[n] in seen { return false; }
      assert selected[..n + 1] == selected[..n] + [selected[n]];
      seen := seen + {selected[n]};
    }
    ok := true;
  }

  method SelectedOf(registered: seq<string>, selected: seq<string>) returns (features: seq<string>)
    ensures features == Keep(feature => feature in selected, registered)
  {
    features := [];
    for n := 0 to |registered|
      invariant features == Keep(feature => feature in selected, registered[..n])
    {
      assert registered[..n + 1] == registered[..n] + [registered[n]];
      KeepJoined(feature => feature in selected, registered[..n], [registered[n]]);
      assert Keep(feature => feature in selected, [registered[n]]) == if registered[n] in selected
          then [registered[n]] else [];
      if registered[n] in selected {
        features := features + [registered[n]];
      }
    }
    assert registered[..|registered|] == registered;
  }

  method ResolveResourcesByLoops(catalog: Catalog, scope: string, keys: seq<Key>, selected: Option<seq<string>>,
                                 fields: Fields)
    returns (grant: Option<Grant>)
    ensures SameResolution(catalog, grant, ResolveResources(catalog, scope, keys, selected, fields))
    ensures CatalogValidation.Sound(catalog) ==> grant == ResolveResources(catalog, scope, keys, selected, fields)
  {
    SoundHasOneOwnerEach(catalog);
    hide CatalogValidation.Sound, ResolveEach, OneOwnerEach, ReadRequests, AllowedBy;
    var ok, allowed := CheckKeys(catalog, scope, keys);
    if !ok { return None; }
    if selected.Some? {
      ok := CheckSelected(allowed, selected.value);
      if !ok { return None; }
    }
    ok, grant := ReadEach(catalog, keys, selected, fields);
  }

  method ReadEach(catalog: Catalog, keys: seq<Key>, selected: Option<seq<string>>, fields: Fields)
    returns (ok: bool, grant: Option<Grant>)
    requires forall key :: key in keys ==> key in catalog.resources && "read" in catalog.resources[key].operations
    ensures SameResolution(catalog, grant, ResolveEach(catalog, ReadRequests(catalog, keys, selected), fields))
  {
    hide ResolvedSoFar, ResolveEach, ReadRequests, OneOwnerEach;
    var joined := NoGrant;
    NothingRead(catalog, selected, fields);
    for n := 0 to |keys|
      invariant ResolvedSoFar(catalog, ReadRequests(catalog, keys[..n], selected), fields, joined)
    {
      assert keys[..n + 1] == keys[..n] + [keys[n]] && keys[n] in keys;
      OneMoreRead(catalog, keys[..n], keys[n], selected);
      var features: Option<seq<string>> := None;
      if selected.Some? {
        var listed := SelectedOf(catalog.resources[keys[n]].operations["read"].buttonKeys, selected.value);
        features := Some(listed);
      }
      var request := Request(keys[n], "read", features);
      OneRead(catalog, keys[n], selected, request);
      ok, joined := ResolveNext(catalog, ReadRequests(catalog, keys[..n], selected), request, fields, joined);
      if !ok {
        ghost var tail := ReadTail(catalog, keys, selected, n + 1);
        OneRefusalRefusesAll(catalog, ReadRequests(catalog, keys[..n], selected), request, tail, fields);
        return ok, None;
      }
    }
    assert keys[..|keys|] == keys;
    ResolvedAtLast(catalog, ReadRequests(catalog, keys, selected), fields, joined);
    ok, grant := true, Some(joined);
  }

  lemma ResolvedAtLast(catalog: Catalog, requests: seq<Request>, fields: Fields, joined: Grant)
    requires ResolvedSoFar(catalog, requests, fields, joined)
    ensures SameResolution(catalog, Some(joined), ResolveEach(catalog, requests, fields))
  {
  }

  lemma NothingRead(catalog: Catalog, selected: Option<seq<string>>, fields: Fields)
    ensures ResolvedSoFar(catalog, ReadRequests(catalog, [], selected), fields, NoGrant)
  {
  }

  lemma OneRead(catalog: Catalog, key: Key, selected: Option<seq<string>>, request: Request)
    requires key in catalog.resources && "read" in catalog.resources[key].operations
    requires request == Request(key, "read", if selected.None? then None
                                             else Some(Keep(feature => feature in selected.value,
                                                            catalog.resources[key].operations["read"].buttonKeys)))
    ensures ReadRequests(catalog, [key], selected) == [request]
  {
    assert [key][1..] == [];
  }

  lemma {:induction false} ReadTail(catalog: Catalog, keys: seq<Key>, selected: Option<seq<string>>, n: nat)
    returns (tail: seq<Request>)
    requires forall key :: key in keys ==> key in catalog.resources && "read" in catalog.resources[key].operations
    requires n <= |keys|
    ensures ReadRequests(catalog, keys, selected) == ReadRequests(catalog, keys[..n], selected) + tail
    decreases |keys| - n
  {
    if n == |keys| {
      assert keys[..n] == keys;
      tail := [];
    } else {
      var rest := ReadTail(catalog, keys, selected, n + 1);
      assert keys[..n + 1] == keys[..n] + [keys[n]] && keys[n] in keys;
      OneMoreRead(catalog, keys[..n], keys[n], selected);
      tail := ReadRequests(catalog, [keys[n]], selected) + rest;
    }
  }

  // One binding

  method ResolveBindingByLoops(catalog: Catalog, scope: string, key: Key, operation: string,
                               selected: Option<seq<string>>, fields: Fields)
    returns (grant: Option<Grant>)
    ensures SameResolution(catalog, grant, ResolveBinding(catalog, scope, key, operation, selected, fields))
    ensures CatalogValidation.Sound(catalog) ==>
            grant == ResolveBinding(catalog, scope, key, operation, selected, fields)
  {
    SoundHasOneOwnerEach(catalog);
    hide CatalogValidation.Sound, ResolveOperation, ResolveAll, OneOwnerEach;
    if !InScope(key, scope) { return None; }
    if key in catalog.resources && catalog.resources[key].kind == "resource" && operation == "*"
       && catalog.resources[key].permissionScope == "*" {
      if selected.Some? && |selected.value| > 0 { return None; }
      grant := ResolveAllByLoops(catalog, scope, fields);
      return;
    }
    grant := ResolveOperationByLoops(catalog, key, operation, selected, fields);
  }
}
