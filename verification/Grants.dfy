/**
What a stored association resolves to: pages, buttons and endpoints of the
catalog, for all fields or a selection of them.
*/
module Grants {
  import opened Options
  import opened ResourceCatalog
  import opened Ordering

  datatype UiBinding = UiBinding(menuKey: string, parentMenuKey: string, menuPath: string, pageEntry: bool,
                                 buttonKeys: seq<string>)

  datatype Endpoint = Endpoint(protocol: string, method_: string, path: string)

  datatype Grant = Grant(permissionScopes: seq<string>, permissionScope: string, ui: seq<UiBinding>,
                         endpoints: seq<Endpoint>)

  /** No selection means every field. */
  type Fields = Option<set<string>>

  predicate HasField(fields: Fields, name: string) {
    fields.None? || name in fields.value
  }

  function Display(endpoint: Endpoint): string {
    endpoint.method_ + "|" + endpoint.path
  }

  /** Ordered by display; equal displays are told apart by protocol and then by method. */
  predicate EndpointBelow(a: Endpoint, b: Endpoint) {
    if Display(a) != Display(b) then StringBelow(Display(a), Display(b))
    else if a.protocol != b.protocol then StringBelow(a.protocol, b.protocol)
    else StringBelow(a.method_, b.method_)
  }

  lemma EndpointOrder()
    ensures TotalOrder(EndpointBelow)
  {
    forall a, b ensures Comparable(EndpointBelow, a, b) {
      StringBelowTotal(Display(a), Display(b));
      StringBelowTotal(a.protocol, b.protocol);
      StringBelowTotal(a.method_, b.method_);
    }
    forall a, b ensures Antisymmetric(EndpointBelow, a, b) {
      if EndpointBelow(a, b) && EndpointBelow(b, a) {
        EndpointAntisymmetric(a, b);
      }
    }
    forall a, b, c ensures Transitive(EndpointBelow, a, b, c) {
      if EndpointBelow(a, b) && EndpointBelow(b, c) {
        EndpointTransitive(a, b, c);
      }
    }
  }

  lemma StringsOrdered(a: string, b: string, c: string)
    ensures StringBelow(a, b) && StringBelow(b, c) ==> StringBelow(a, c)
    ensures StringBelow(a, b) && StringBelow(b, a) ==> a == b
  {
    if StringBelow(a, b) && StringBelow(b, c) { StringBelowTransitive(a, b, c); }
    if StringBelow(a, b) && StringBelow(b, a) { StringBelowAntisymmetric(a, b); }
  }

  lemma EndpointAntisymmetric(a: Endpoint, b: Endpoint)
    requires EndpointBelow(a, b) && EndpointBelow(b, a)
    ensures a == b
  {
    StringsOrdered(Display(a), Display(b), Display(a));
    StringsOrdered(a.protocol, b.protocol, a.protocol);
    StringsOrdered(a.method_, b.method_, a.method_);
    SameDisplaySamePath(a, b);
  }

  lemma EndpointTransitive(a: Endpoint, b: Endpoint, c: Endpoint)
    requires EndpointBelow(a, b) && EndpointBelow(b, c)
    ensures EndpointBelow(a, c)
  {
    StringsOrdered(Display(a), Display(b), Display(c));
    StringsOrdered(a.protocol, b.protocol, c.protocol);
    StringsOrdered(a.method_, b.method_, c.method_);
    if Display(a) == Display(c) && Display(a) != Display(b) {
      StringBelowAntisymmetric(Display(a), Display(b));
    }
    if a.protocol == c.protocol && a.protocol != b.protocol && Display(a) == Display(b) == Display(c) {
      StringBelowAntisymmetric(a.protocol, b.protocol);
    }
  }

  lemma SameDisplaySamePath(a: Endpoint, b: Endpoint)
    requires Display(a) == Display(b) && a.method_ == b.method_
    ensures a.path == b.path
  {
    var n := |a.method_| + 1;
    assert a.path == Display(a)[n..] == Display(b)[n..] == b.path;
  }

  function SortedEndpoints(endpoints: set<Endpoint>): (sorted: seq<Endpoint>)
    ensures forall endpoint :: endpoint in sorted <==> endpoint in endpoints
  {
    EndpointOrder();
    Sorted(EndpointBelow, endpoints)
  }

  function ReplaceFirst(s: string, old_: string, new_: string): string {
    if old_ <= s then new_ + s[|old_|..]
    else if s == "" then ""
    else [s[0]] + ReplaceFirst(s[1..], old_, new_)
  }

  /** Buttons of a page carry the page's key with the menu segment turned into a button segment. */
  function ButtonPrefix(entryKey: string): string {
    ReplaceFirst(entryKey, ":menu:", ":btn:") + ":"
  }

  predicate Registered(catalog: Catalog, binding: OperationBinding, features: seq<string>) {
    && (forall i :: 0 <= i < |features| ==> features[i] in catalog.buttons && features[i] in binding.buttonKeys)
    && (forall i, j :: 0 <= i < j < |features| ==> features[i] != features[j])
  }

  function FeatureScopes(catalog: Catalog, operation: string, features: seq<string>): seq<string>
    requires forall feature :: feature in features ==> feature in catalog.buttons
  {
    if features == [] then []
    else
      var resource := catalog.buttons[features[0]].permissionResource;
      (if resource != "" then [resource + ":" + operation] else []) + FeatureScopes(catalog, operation, features[1..])
  }

  function FeatureButtons(catalog: Catalog, features: seq<string>): seq<string>
    requires forall feature :: feature in features ==> feature in catalog.buttons
  {
    if features == [] then [] else catalog.buttons[features[0]].buttons + FeatureButtons(catalog, features[1..])
  }

  function FeaturePages(catalog: Catalog, features: seq<string>): set<string>
    requires forall feature :: feature in features ==> feature in catalog.buttons
  {
    set feature, entry | feature in features && entry in catalog.buttons[feature].entryKeys :: entry
  }

  function HttpEndpoints(feature: Feature): set<Endpoint> {
    set http | http in feature.http :: Endpoint("http", http.method_, http.path)
  }

  function GrpcEndpoints(feature: Feature): set<Endpoint> {
    set path | path in feature.grpc :: Endpoint("grpc", "GRPC", path)
  }

  function FeatureEndpoints(catalog: Catalog, features: seq<string>, fields: Fields): set<Endpoint>
    requires forall feature :: feature in features ==> feature in catalog.buttons
  {
    if features == [] then {}
    else
      var feature := catalog.buttons[features[0]];
      (if HasField(fields, "http") then HttpEndpoints(feature) else {})
      + (if HasField(fields, "grpc") then GrpcEndpoints(feature) else {})
      + FeatureEndpoints(catalog, features[1..], fields)
  }

  predicate ButtonOf(entryKey: string, button: string) {
    ButtonPrefix(entryKey) <= button
  }

  function ShownEntries(catalog: Catalog, key: Key, pages: set<string>, buttons: seq<string>): (entries: set<string>)
    requires key in catalog.resources
    ensures forall entry :: entry in entries ==> Owners(catalog, entry) != {}
  {
    assert forall entry :: entry in catalog.resources[key].entries ==> key in Owners(catalog, entry);
    assert forall owner, entry :: owner in catalog.resources && entry in catalog.resources[owner].entries ==>
                                  owner in Owners(catalog, entry);
    catalog.resources[key].entries.Keys
    + set owner, entry | owner in catalog.resources && entry in catalog.resources[owner].entries
                         && (entry in pages || exists button :: button in buttons && ButtonOf(entry, button)) :: entry
  }

  function Owners(catalog: Catalog, entry: string): set<Key> {
    set owner | owner in catalog.resources && entry in catalog.resources[owner].entries
  }

  /** The one owner's entry; a catalog that names two owners is refused by validation. */
  function EntryOf(catalog: Catalog, entry: string): Entry
    requires Owners(catalog, entry) != {}
  {
    StringOrder();
    catalog.resources[Least(StringBelow, Owners(catalog, entry))].entries[entry]
  }

  function ShowEntries(catalog: Catalog, entries: seq<string>, pages: set<string>, buttons: seq<string>): seq<UiBinding>
    requires forall entry :: entry in entries ==> Owners(catalog, entry) != {}
  {
    if entries == [] then []
    else
      assert entries[0] in entries;
      var entry := EntryOf(catalog, entries[0]);
      [UiBinding(entries[0], entry.parentMenuKey, entry.path, entries[0] in pages,
                 Keep(button => ButtonOf(entries[0], button), buttons))]
      + ShowEntries(catalog, entries[1..], pages, buttons)
  }

  function OperationUi(catalog: Catalog, key: Key, binding: OperationBinding, features: seq<string>): seq<UiBinding>
    requires key in catalog.resources
    requires forall feature :: feature in features ==> feature in catalog.buttons
  {
    var buttons := FeatureButtons(catalog, features);
    var pages := FeaturePages(catalog, features) + set entry | entry in binding.entryKeys;
    ShowEntries(catalog, SortedStrings(ShownEntries(catalog, key, pages, buttons)), pages, buttons)
  }

  function OperationGrant(catalog: Catalog, key: Key, operation: string, binding: OperationBinding,
                          features: seq<string>,
                          fields: Fields): Grant
    requires key in catalog.resources
    requires forall feature :: feature in features ==> feature in catalog.buttons
  {
    Grant(FeatureScopes(catalog, operation, features),
          "",
          if HasField(fields, "ui") then OperationUi(catalog, key, binding, features) else [],
          SortedEndpoints(FeatureEndpoints(catalog, features, fields)))
  }

  function Chosen(binding: OperationBinding, selected: Option<seq<string>>): seq<string> {
    if selected.None? then binding.buttonKeys else selected.value
  }

  predicate Operable(catalog: Catalog, key: Key, operation: string, selected: Option<seq<string>>) {
    && key in catalog.resources
    && operation in catalog.resources[key].operations
    && var binding := catalog.resources[key].operations[operation];
       Registered(catalog, binding, Chosen(binding, selected))
  }

  /** One operation of one resource. Refused when a selected feature is not registered under it. */
  function ResolveOperation(catalog: Catalog, key: Key, operation: string, selected: Option<seq<string>>,
                            fields: Fields): Option<Grant>
  {
    if !Operable(catalog, key, operation, selected) then None
    else
      var binding := catalog.resources[key].operations[operation];
      Some(OperationGrant(catalog, key, operation, binding, Chosen(binding, selected), fields))
  }

  function Join(left: Grant, right: Grant): Grant {
    Grant(left.permissionScopes + right.permissionScopes,
          if right.permissionScope == "*" then "*" else left.permissionScope,
          left.ui + right.ui,
          left.endpoints + right.endpoints)
  }

  const NoGrant := Grant([], "", [], [])

  datatype Request = Request(key: Key, operation: string, selected: Option<seq<string>>)

  function ResolveEach(catalog: Catalog, requests: seq<Request>, fields: Fields): Option<Grant> {
    if requests == [] then Some(NoGrant)
    else
      var last := requests[|requests| - 1];
      var before := ResolveEach(catalog, requests[..|requests| - 1], fields);
      var resolved := ResolveOperation(catalog, last.key, last.operation, last.selected, fields);
      if before.None? || resolved.None? then None else Some(Join(before.value, resolved.value))
  }

  function OperationsOf(catalog: Catalog, key: Key, operations: seq<string>): seq<Request>
    requires key in catalog.resources
  {
    if operations == [] then []
    else (if operations[0] in catalog.resources[key].operations then [Request(key, operations[0], None)] else [])
         + OperationsOf(catalog, key, operations[1..])
  }

  function EveryOperation(catalog: Catalog, keys: seq<Key>): seq<Request>
    requires forall key :: key in keys ==> key in catalog.resources
  {
    if keys == [] then []
    else OperationsOf(catalog, keys[0], FixedOperations) + EveryOperation(catalog, keys[1..])
  }

  function MarkPages(ui: seq<UiBinding>): seq<UiBinding> {
    if ui == [] then [] else [ui[0].(pageEntry := true)] + MarkPages(ui[1..])
  }

  function MissingEntries(node: Node, entries: seq<string>, present: set<string>): seq<UiBinding>
    requires forall entry :: entry in entries ==> entry in node.entries
  {
    if entries == [] then []
    else if entries[0] in present then MissingEntries(node, entries[1..], present)
    else
      var entry := node.entries[entries[0]];
      [UiBinding(entries[0], entry.parentMenuKey, entry.path, true, [])]
      + MissingEntries(node, entries[1..], present + {entries[0]})
  }

  function MissingPages(catalog: Catalog, keys: seq<Key>, present: set<string>): seq<UiBinding>
    requires forall key :: key in keys ==> key in catalog.resources
  {
    if keys == [] then []
    else
      var node := catalog.resources[keys[0]];
      MissingEntries(node, SortedStrings(node.entries.Keys), present)
      + MissingPages(catalog, keys[1..], present + node.entries.Keys)
  }

  /** Everything registered in a scope. The scopes of single features are not listed beside the wildcard. */
  function ResolveAll(catalog: Catalog, scope: string, fields: Fields): Option<Grant> {
    var keys := SortedStrings(set key | key in catalog.resources && InScope(key, scope));
    var resolved := ResolveEach(catalog, EveryOperation(catalog, keys), fields);
    if resolved.None? then None
    else
      var grant := resolved.value.(permissionScopes := [], permissionScope := "*");
      if !HasField(fields, "ui") then Some(grant)
      else
        var ui := MarkPages(grant.ui);
        Some(grant.(ui := ui + MissingPages(catalog, keys, set shown | shown in ui :: shown.menuKey)))
  }

  predicate Wildcard(catalog: Catalog, key: Key, operation: string) {
    && key in catalog.resources
    && catalog.resources[key].kind == "resource"
    && operation == "*"
    && catalog.resources[key].permissionScope == "*"
  }

  function ResolveBinding(catalog: Catalog, scope: string, key: Key, operation: string, selected: Option<seq<string>>,
                          fields: Fields): Option<Grant> {
    if !InScope(key, scope) then None
    else if Wildcard(catalog, key, operation) then
      if selected.Some? && selected.value != [] then None else ResolveAll(catalog, scope, fields)
    else ResolveOperation(catalog, key, operation, selected, fields)
  }

  predicate Selectable(catalog: Catalog, scope: string, keys: seq<Key>, selected: Option<seq<string>>) {
    && (forall i :: 0 <= i < |keys| ==>
          && keys[i] in catalog.resources
          && catalog.resources[keys[i]].kind == "resource"
          && InScope(keys[i], scope)
          && "read" in catalog.resources[keys[i]].operations)
    && (forall i, j :: 0 <= i < j < |keys| ==> keys[i] != keys[j])
    && (selected.Some? ==>
          && (forall i :: 0 <= i < |selected.value| ==> AllowedBy(catalog, keys, selected.value[i]))
          && (forall i, j :: 0 <= i < j < |selected.value| ==> selected.value[i] != selected.value[j]))
  }

  predicate AllowedBy(catalog: Catalog, keys: seq<Key>, feature: string) {
    exists key :: key in keys && key in catalog.resources && "read" in catalog.resources[key].operations
                  && feature in catalog.resources[key].operations["read"].buttonKeys
  }

  function ReadRequests(catalog: Catalog, keys: seq<Key>, selected: Option<seq<string>>): seq<Request>
    requires forall key :: key in keys ==> key in catalog.resources && "read" in catalog.resources[key].operations
  {
    if keys == [] then []
    else
      var registered := catalog.resources[keys[0]].operations["read"].buttonKeys;
      var features := if selected.None? then None else Some(Keep(feature => feature in selected.value, registered));
      [Request(keys[0], "read", features)] + ReadRequests(catalog, keys[1..], selected)
  }

  /** The explicit resource selection of the default permissions. */
  function ResolveResources(catalog: Catalog, scope: string, keys: seq<Key>, selected: Option<seq<string>>,
                            fields: Fields): Option<Grant>
  {
    if !Selectable(catalog, scope, keys, selected) then None
    else ResolveEach(catalog, ReadRequests(catalog, keys, selected), fields)
  }

  // Field selection

  function InFields(fields: Fields): Endpoint -> bool {
    (endpoint: Endpoint) => HasField(fields, endpoint.protocol)
  }

  function SelectEndpoints(endpoints: seq<Endpoint>, fields: Fields): seq<Endpoint> {
    Keep(InFields(fields), endpoints)
  }

  function SelectGrant(grant: Grant, fields: Fields): Grant {
    grant.(ui := if HasField(fields, "ui") then grant.ui else [], endpoints := SelectEndpoints(grant.endpoints, fields))
  }

  function Select(grant: Option<Grant>, fields: Fields): Option<Grant> {
    if grant.None? then None else Some(SelectGrant(grant.value, fields))
  }

  lemma {:induction false} SelectedFeatureEndpoints(catalog: Catalog, features: seq<string>, fields: Fields)
    requires forall feature :: feature in features ==> feature in catalog.buttons
    ensures FeatureEndpoints(catalog, features, fields)
         == Selected(InFields(fields), FeatureEndpoints(catalog, features, None))
  {
    if features != [] {
      SelectedFeatureEndpoints(catalog, features[1..], fields);
    }
  }

  lemma GrantSelectsFields(catalog: Catalog, key: Key, operation: string, binding: OperationBinding,
                           features: seq<string>, fields: Fields)
    requires key in catalog.resources
    requires forall feature :: feature in features ==> feature in catalog.buttons
    ensures OperationGrant(catalog, key, operation, binding, features, fields)
         == SelectGrant(OperationGrant(catalog, key, operation, binding, features, None), fields)
  {
    SelectedFeatureEndpoints(catalog, features, fields);
    SelectSorted(FeatureEndpoints(catalog, features, None), fields);
  }

  lemma SelectSorted(endpoints: set<Endpoint>, fields: Fields)
    ensures SelectEndpoints(SortedEndpoints(endpoints), fields)
         == SortedEndpoints(Selected(InFields(fields), endpoints))
  {
    EndpointOrder();
    KeepSorted(EndpointBelow, endpoints, InFields(fields));
  }

  lemma OperationSelectsFields(catalog: Catalog, key: Key, operation: string, selected: Option<seq<string>>,
                               fields: Fields)
    ensures ResolveOperation(catalog, key, operation, selected, fields)
         == Select(ResolveOperation(catalog, key, operation, selected, None), fields)
  {
    if Operable(catalog, key, operation, selected) {
      var binding := catalog.resources[key].operations[operation];
      GrantSelectsFields(catalog, key, operation, binding, Chosen(binding, selected), fields);
    }
  }

  lemma {:induction false} KeepJoined<T(!new)>(keep: T -> bool, left: seq<T>, right: seq<T>)
    ensures Keep(keep, left + right) == Keep(keep, left) + Keep(keep, right)
  {
    if left == [] {
      assert left + right == right;
    } else {
      assert (left + right)[1..] == left[1..] + right;
      KeepJoined(keep, left[1..], right);
    }
  }

  lemma JoinSelectsFields(left: Grant, right: Grant, fields: Fields)
    ensures SelectGrant(Join(left, right), fields) == Join(SelectGrant(left, fields), SelectGrant(right, fields))
  {
    KeepJoined(InFields(fields), left.endpoints, right.endpoints);
  }

  lemma {:induction false} EachSelectsFields(catalog: Catalog, requests: seq<Request>, fields: Fields)
    ensures ResolveEach(catalog, requests, fields) == Select(ResolveEach(catalog, requests, None), fields)
  {
    if requests != [] {
      var before := requests[..|requests| - 1];
      var last := requests[|requests| - 1];
      EachSelectsFields(catalog, before, fields);
      OperationSelectsFields(catalog, last.key, last.operation, last.selected, fields);
      var left := ResolveEach(catalog, before, None);
      var right := ResolveOperation(catalog, last.key, last.operation, last.selected, None);
      if left.Some? && right.Some? {
        JoinSelectsFields(left.value, right.value, fields);
      }
    }
  }

  /** Resolving a selection of fields is selecting from the full resolution, with the same refusals. */
  lemma BindingSelectsFields(catalog: Catalog, scope: string, key: Key, operation: string,
                             selected: Option<seq<string>>, fields: Fields)
    ensures ResolveBinding(catalog, scope, key, operation, selected, fields)
         == Select(ResolveBinding(catalog, scope, key, operation, selected, None), fields)
  {
    OperationSelectsFields(catalog, key, operation, selected, fields);
    AllSelectsFields(catalog, scope, fields);
  }

  lemma AllSelectsFields(catalog: Catalog, scope: string, fields: Fields)
    ensures ResolveAll(catalog, scope, fields) == Select(ResolveAll(catalog, scope, None), fields)
  {
    var keys := SortedStrings(set key | key in catalog.resources && InScope(key, scope));
    EachSelectsFields(catalog, EveryOperation(catalog, keys), fields);
  }

  lemma ResourcesSelectFields(catalog: Catalog, scope: string, keys: seq<Key>, selected: Option<seq<string>>,
                              fields: Fields)
    ensures ResolveResources(catalog, scope, keys, selected, fields)
         == Select(ResolveResources(catalog, scope, keys, selected, None), fields)
  {
    if Selectable(catalog, scope, keys, selected) {
      EachSelectsFields(catalog, ReadRequests(catalog, keys, selected), fields);
    }
  }

  /** Selecting fewer features of one operation never adds an endpoint. */
  lemma FewerFeaturesFewerEndpoints(catalog: Catalog, key: Key, operation: string, fewer: seq<string>,
                                    more: seq<string>, fields: Fields)
    requires forall feature :: feature in fewer ==> feature in more
    requires ResolveOperation(catalog, key, operation, Some(fewer), fields).Some?
    requires ResolveOperation(catalog, key, operation, Some(more), fields).Some?
    ensures var a := ResolveOperation(catalog, key, operation, Some(fewer), fields).value;
            var b := ResolveOperation(catalog, key, operation, Some(more), fields).value;
            forall endpoint :: endpoint in a.endpoints ==> endpoint in b.endpoints
  {
    forall endpoint | endpoint in FeatureEndpoints(catalog, fewer, fields)
      ensures endpoint in FeatureEndpoints(catalog, more, fields)
    {
      var feature := EndpointHasFeature(catalog, fewer, fields, endpoint);
      FeatureHasEndpoint(catalog, more, fields, feature, endpoint);
    }
  }

  predicate Brings(feature: Feature, fields: Fields, endpoint: Endpoint) {
    || (HasField(fields, "http") && endpoint in HttpEndpoints(feature))
    || (HasField(fields, "grpc") && endpoint in GrpcEndpoints(feature))
  }

  lemma {:induction false} EndpointHasFeature(catalog: Catalog, features: seq<string>, fields: Fields,
                                              endpoint: Endpoint) returns (feature: string)
    requires forall feature :: feature in features ==> feature in catalog.buttons
    requires endpoint in FeatureEndpoints(catalog, features, fields)
    ensures feature in features && Brings(catalog.buttons[feature], fields, endpoint)
  {
    if Brings(catalog.buttons[features[0]], fields, endpoint) {
      feature := features[0];
    } else {
      feature := EndpointHasFeature(catalog, features[1..], fields, endpoint);
    }
  }

  lemma {:induction false} FeatureHasEndpoint(catalog: Catalog, features: seq<string>, fields: Fields,
                                              feature: string, endpoint: Endpoint)
    requires forall feature :: feature in features ==> feature in catalog.buttons
    requires feature in features && Brings(catalog.buttons[feature], fields, endpoint)
    ensures endpoint in FeatureEndpoints(catalog, features, fields)
  {
    if feature != features[0] {
      FeatureHasEndpoint(catalog, features[1..], fields, feature, endpoint);
    }
  }
}
