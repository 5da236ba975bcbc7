/**
What a resolution grants, told by the catalog alone: exactly the endpoints, permission scopes, pages
and buttons of the features it selects, and for several bindings exactly the union.
*/
module GrantMeaning {
  import opened Options
  import opened ResourceCatalog
  import opened Ordering
  import opened Grants
  import opened ActionConfig
  import opened Words
  import BindingMerge

  /** What a grant is made of, taken apart. */
  datatype Part =
    | AnEndpoint(endpoint: Endpoint)
    | APage(page: string)
    | AnEntry(page: string)              // the page may be entered
    | AButton(page: string, button: string)
    | AScope(scope: string)

  ghost predicate Allows(grant: Grant, part: Part) {
    match part
    case AnEndpoint(endpoint) => endpoint in grant.endpoints
    case APage(page) => ShowsPage(grant.ui, page)
    case AnEntry(page) => EntersPage(grant.ui, page)
    case AButton(page, button) => ShowsButton(grant.ui, page, button)
    case AScope(scope) => scope in grant.permissionScopes
  }

  lemma PagesJoin(left: seq<UiBinding>, right: seq<UiBinding>, menuKey: string, button: string)
    ensures ShowsPage(left + right, menuKey) <==> (ShowsPage(left, menuKey) || ShowsPage(right, menuKey))
    ensures EntersPage(left + right, menuKey) <==> (EntersPage(left, menuKey) || EntersPage(right, menuKey))
    ensures ShowsButton(left + right, menuKey, button) <==>
            (ShowsButton(left, menuKey, button) || ShowsButton(right, menuKey, button))
  {
    var ui := left + right;
    assert forall i :: 0 <= i < |left| ==> ui[i] == left[i];
    assert forall i :: 0 <= i < |right| ==> ui[|left| + i] == right[i];
  }

  /** Joining two grants allows what either allows. */
  lemma JoinAllows(left: Grant, right: Grant, part: Part)
    ensures Allows(Join(left, right), part) <==> (Allows(left, part) || Allows(right, part))
  {
    match part
    case AnEndpoint(endpoint) =>
    case APage(page) => PagesJoin(left.ui, right.ui, page, "");
    case AnEntry(page) => PagesJoin(left.ui, right.ui, page, "");
    case AButton(page, button) => PagesJoin(left.ui, right.ui, page, button);
    case AScope(scope) =>
  }

  lemma NothingAllowed(part: Part)
    ensures !Allows(NoGrant, part)
  {
  }

  // One operation

  ghost predicate SomeBrings(catalog: Catalog, features: seq<string>, fields: Fields, endpoint: Endpoint) {
    exists feature :: feature in features && feature in catalog.buttons &&
                      Brings(catalog.buttons[feature], fields, endpoint)
  }

  ghost predicate SomeScopes(catalog: Catalog, operation: string, features: seq<string>, scope: string) {
    exists feature :: feature in features && feature in catalog.buttons &&
                      ScopedAs(catalog.buttons[feature], operation, scope)
  }

  predicate ScopedAs(feature: Feature, operation: string, scope: string) {
    feature.permissionResource != "" && scope == feature.permissionResource + ":" + operation
  }

  ghost predicate SomePresses(catalog: Catalog, features: seq<string>, button: string) {
    exists feature :: feature in features && feature in catalog.buttons && button in catalog.buttons[feature].buttons
  }

  /** A page is entered when the operation or one of the features names it. */
  ghost predicate Enters(catalog: Catalog, binding: OperationBinding, features: seq<string>, menuKey: string) {
    menuKey in binding.entryKeys
    || exists feature :: feature in features && feature in catalog.buttons &&
                         menuKey in catalog.buttons[feature].entryKeys
  }

  /** Shown are the resource's own pages, and any page that is entered or has one of the buttons. */
  ghost predicate Shown(catalog: Catalog, key: Key, binding: OperationBinding, features: seq<string>, menuKey: string)
    requires key in catalog.resources
  {
    || menuKey in catalog.resources[key].entries
    || (Owners(catalog, menuKey) != {}
        && (Enters(catalog, binding, features, menuKey)
            || exists button :: SomePresses(catalog, features, button) && ButtonOf(menuKey, button)))
  }

  lemma FeaturesReach(catalog: Catalog, features: seq<string>, fields: Fields, endpoint: Endpoint)
    requires forall feature :: feature in features ==> feature in catalog.buttons
    ensures endpoint in FeatureEndpoints(catalog, features, fields) <==> SomeBrings(catalog, features, fields, endpoint)
  {
    if endpoint in FeatureEndpoints(catalog, features, fields) {
      var feature := EndpointHasFeature(catalog, features, fields, endpoint);
    }
    if feature :| feature in features && Brings(catalog.buttons[feature], fields, endpoint) {
      FeatureHasEndpoint(catalog, features, fields, feature, endpoint);
    }
  }

  /** One operation reaches exactly the endpoints of the chosen features, listed in order and once. */
  lemma OperationReaches(catalog: Catalog, key: Key, operation: string, selected: Option<seq<string>>, fields: Fields,
                         endpoint: Endpoint)
    requires ResolveOperation(catalog, key, operation, selected, fields).Some?
    ensures var endpoints := ResolveOperation(catalog, key, operation, selected, fields).value.endpoints;
            && (endpoint in endpoints
                <==> SomeBrings(catalog, Chosen(catalog.resources[key].operations[operation], selected), fields,
                                endpoint))
            && forall i, j :: 0 <= i < j < |endpoints| ==>
                              EndpointBelow(endpoints[i], endpoints[j]) && endpoints[i] != endpoints[j]
  {
    var features := Chosen(catalog.resources[key].operations[operation], selected);
    FeaturesReach(catalog, features, fields, endpoint);
    var reached := FeatureEndpoints(catalog, features, fields);
    EndpointOrder();
    forall i, j | 0 <= i < j < |SortedEndpoints(reached)|
      ensures EndpointBelow(SortedEndpoints(reached)[i], SortedEndpoints(reached)[j]) &&
              SortedEndpoints(reached)[i] != SortedEndpoints(reached)[j]
    {
      SortedAscends(EndpointBelow, reached, i, j);
    }
  }

  lemma {:induction false} FeaturesScope(catalog: Catalog, operation: string, features: seq<string>, scope: string)
    requires forall feature :: feature in features ==> feature in catalog.buttons
    ensures scope in FeatureScopes(catalog, operation, features) <==> SomeScopes(catalog, operation, features, scope)
  {
    if features != [] {
      FeaturesScope(catalog, operation, features[1..], scope);
      assert features[0] in features;
    }
  }

  lemma {:induction false} FeaturesPress(catalog: Catalog, features: seq<string>, button: string)
    requires forall feature :: feature in features ==> feature in catalog.buttons
    ensures button in FeatureButtons(catalog, features) <==> SomePresses(catalog, features, button)
  {
    if features != [] {
      FeaturesPress(catalog, features[1..], button);
      assert features[0] in features;
    }
  }

  lemma FirstPage(first: UiBinding, rest: seq<UiBinding>, menuKey: string, button: string)
    ensures ShowsPage([first] + rest, menuKey) <==> (first.menuKey == menuKey || ShowsPage(rest, menuKey))
    ensures EntersPage([first] + rest, menuKey) <==>
            ((first.menuKey == menuKey && first.pageEntry) || EntersPage(rest, menuKey))
    ensures ShowsButton([first] + rest, menuKey, button)
       <==> ((first.menuKey == menuKey && button in first.buttonKeys) || ShowsButton(rest, menuKey, button))
  {
    var ui := [first] + rest;
    assert ui[0] == first;
    assert forall i :: 0 <= i < |rest| ==> ui[i + 1] == rest[i];
  }

  lemma {:induction false} ListedEntriesShow(catalog: Catalog, entries: seq<string>, pages: set<string>,
                                             buttons: seq<string>, menuKey: string, button: string)
    requires forall entry :: entry in entries ==> Owners(catalog, entry) != {}
    ensures var ui := ShowEntries(catalog, entries, pages, buttons);
            && (ShowsPage(ui, menuKey) <==> menuKey in entries)
            && (EntersPage(ui, menuKey) <==> menuKey in entries && menuKey in pages)
            && (ShowsButton(ui, menuKey, button) <==>
                menuKey in entries && button in buttons && ButtonOf(menuKey, button))
  {
    if entries != [] {
      var ui := ShowEntries(catalog, entries, pages, buttons);
      ListedEntriesShow(catalog, entries[1..], pages, buttons, menuKey, button);
      assert entries[0] in entries;
      assert ui == [ui[0]] + ShowEntries(catalog, entries[1..], pages, buttons);
      FirstPage(ui[0], ShowEntries(catalog, entries[1..], pages, buttons), menuKey, button);
    }
  }

  /** What one operation allows, told by its features and the pages of the catalog. */
  ghost predicate OperationAllows(catalog: Catalog, key: Key, operation: string, selected: Option<seq<string>>,
                                  fields: Fields, part: Part)
  {
    Operable(catalog, key, operation, selected)
    && var binding := catalog.resources[key].operations[operation];
       var features := Chosen(binding, selected);
       match part
       case AnEndpoint(endpoint) => SomeBrings(catalog, features, fields, endpoint)
       case APage(page) => HasField(fields, "ui") && Shown(catalog, key, binding, features, page)
       case AnEntry(page) =>
         HasField(fields, "ui") && Shown(catalog, key, binding, features, page) &&
             Enters(catalog, binding, features, page)
       case AButton(page, button) =>
         HasField(fields, "ui") && Shown(catalog, key, binding, features, page)
         && SomePresses(catalog, features, button) && ButtonOf(page, button)
       case AScope(scope) => SomeScopes(catalog, operation, features, scope)
  }

  lemma {:induction false} ReplacedBehind(head: string, old_: string, new_: string, rest: string)
    requires old_ != "" && old_[0] !in head
    ensures ReplaceFirst(head + old_ + rest, old_, new_) == head + new_ + rest
  {
    var text := head + old_ + rest;
    if head == "" {
      assert text == old_ + rest && text[|old_|..] == rest;
    } else {
      assert text[0] == head[0] && head[0] in head && old_[0] != text[0];
      assert text[1..] == head[1..] + old_ + rest;
      ReplacedBehind(head[1..], old_, new_, rest);
      assert head == [head[0]] + head[1..];
      assert [head[0]] + (head[1..] + new_ + rest) == head + new_ + rest;
    }
  }

  /** The buttons of the page `scope:menu:name` are those named `scope:btn:name:` and something. */
  lemma ButtonsOfAPage(scope: string, name: string, button: string)
    requires ':' !in scope
    ensures ButtonOf(scope + ":menu:" + name, scope + ":btn:" + name + ":" + button)
    ensures ButtonOf(scope + ":menu:" + name, button) ==> scope + ":btn:" + name + ":" <= button
  {
    ReplacedBehind(scope, ":menu:", ":btn:", name);
  }

  /** One operation shows exactly the pages and buttons its features and entries name. */
  lemma OperationShows(catalog: Catalog, key: Key, binding: OperationBinding, features: seq<string>, menuKey: string,
                       button: string)
    requires key in catalog.resources
    requires forall feature :: feature in features ==> feature in catalog.buttons
    ensures var ui := OperationUi(catalog, key, binding, features);
            && (ShowsPage(ui, menuKey) <==> Shown(catalog, key, binding, features, menuKey))
            && (EntersPage(ui, menuKey) <==>
                  Shown(catalog, key, binding, features, menuKey) && Enters(catalog, binding, features, menuKey))
            && (ShowsButton(ui, menuKey, button) <==>
                  Shown(catalog, key, binding, features, menuKey) && SomePresses(catalog, features, button) &&
                      ButtonOf(menuKey, button))
  {
    var buttons := FeatureButtons(catalog, features);
    var pages := FeaturePages(catalog, features) + set entry | entry in binding.entryKeys;
    ListedEntriesShow(catalog, SortedStrings(ShownEntries(catalog, key, pages, buttons)), pages, buttons, menuKey,
                      button);
    FeaturesPress(catalog, features, button);
    EntriesAreShown(catalog, key, binding, features, menuKey);
  }

  /** One operation allows exactly the endpoints, pages, buttons and scopes that its features and entries name. */
  lemma OperationAllowsExactly(catalog: Catalog, key: Key, operation: string, selected: Option<seq<string>>,
                               fields: Fields, part: Part)
    requires ResolveOperation(catalog, key, operation, selected, fields).Some?
    ensures Allows(ResolveOperation(catalog, key, operation, selected, fields).value, part)
       <==> OperationAllows(catalog, key, operation, selected, fields, part)
  {
    var binding := catalog.resources[key].operations[operation];
    var features := Chosen(binding, selected);
    match part {
      case AnEndpoint(endpoint) => OperationReaches(catalog, key, operation, selected, fields, endpoint);
      case APage(page) => OperationShows(catalog, key, binding, features, page, "");
      case AnEntry(page) => OperationShows(catalog, key, binding, features, page, "");
      case AButton(page, button) => OperationShows(catalog, key, binding, features, page, button);
      case AScope(scope) => FeaturesScope(catalog, operation, features, scope);
    }
    hide OperationUi, FeatureScopes, SortedEndpoints;
  }

  lemma EntriesAreShown(catalog: Catalog, key: Key, binding: OperationBinding, features: seq<string>, menuKey: string)
    requires key in catalog.resources
    requires forall feature :: feature in features ==> feature in catalog.buttons
    ensures var buttons := FeatureButtons(catalog, features);
            var pages := FeaturePages(catalog, features) + set entry | entry in binding.entryKeys;
            && (menuKey in ShownEntries(catalog, key, pages, buttons) <==>
                Shown(catalog, key, binding, features, menuKey))
            && (menuKey in pages <==> Enters(catalog, binding, features, menuKey))
  {
    var buttons := FeatureButtons(catalog, features);
    forall button ensures button in buttons <==> SomePresses(catalog, features, button) {
      FeaturesPress(catalog, features, button);
    }
    var pages := FeaturePages(catalog, features) + set entry | entry in binding.entryKeys;
    assert menuKey in FeaturePages(catalog, features)
      <==> exists feature :: feature in features && feature in catalog.buttons &&
                             menuKey in catalog.buttons[feature].entryKeys;
    if Shown(catalog, key, binding, features, menuKey) && menuKey !in catalog.resources[key].entries {
      var owner :| owner in Owners(catalog, menuKey);
      if menuKey !in pages {
        var button :| SomePresses(catalog, features, button) && ButtonOf(menuKey, button);
        assert button in buttons;
      }
      assert owner in catalog.resources && menuKey in catalog.resources[owner].entries;
    }
    if menuKey in ShownEntries(catalog, key, pages, buttons) && menuKey !in catalog.resources[key].entries &&
       menuKey !in pages {
      var button :| button in buttons && ButtonOf(menuKey, button);
      assert SomePresses(catalog, features, button);
    }
  }

  // Several operations

  ghost predicate RequestAllows(catalog: Catalog, request: Request, fields: Fields, part: Part) {
    var grant := ResolveOperation(catalog, request.key, request.operation, request.selected, fields);
    grant.Some? && Allows(grant.value, part)
  }

  predicate Operates(catalog: Catalog, request: Request) {
    Operable(catalog, request.key, request.operation, request.selected)
  }

  /** Several operations resolve exactly when each does, and allow exactly what one of them allows. */
  lemma {:induction false} EachIsTheUnion(catalog: Catalog, requests: seq<Request>, fields: Fields, part: Part)
    ensures var grant := ResolveEach(catalog, requests, fields);
            && (grant.Some? <==> forall request :: request in requests ==> Operates(catalog, request))
            && (grant.Some? ==>
                  && grant.value.permissionScope == ""
                  && (Allows(grant.value, part)
                      <==> exists request :: request in requests && RequestAllows(catalog, request, fields, part)))
  {
    hide ResolveOperation, Operable, Allows;
    if requests == [] {
      NothingAllowed(part);
    } else {
      var before, last := requests[..|requests| - 1], requests[|requests| - 1];
      assert requests == before + [last];
      assert last in requests;
      EachIsTheUnion(catalog, before, fields, part);
      OperatesWhenResolved(catalog, last, fields);
      var grants := ResolveEach(catalog, before, fields);
      var grant := ResolveOperation(catalog, last.key, last.operation, last.selected, fields);
      if grants.Some? && grant.Some? {
        JoinAllows(grants.value, grant.value, part);
      }
    }
  }

  lemma OperatesWhenResolved(catalog: Catalog, request: Request, fields: Fields)
    ensures var grant := ResolveOperation(catalog, request.key, request.operation, request.selected, fields);
            && (grant.Some? <==> Operates(catalog, request))
            && (grant.Some? ==> grant.value.permissionScope == "")
  {
  }

  // Everything in a scope

  predicate InAll(catalog: Catalog, scope: string, key: Key, operation: string) {
    && key in catalog.resources && InScope(key, scope)
    && operation in FixedOperations && operation in catalog.resources[key].operations
  }

  lemma {:induction false} OperationsListed(catalog: Catalog, key: Key, operations: seq<string>, request: Request)
    requires key in catalog.resources
    ensures request in OperationsOf(catalog, key, operations)
       <==> (request.key == key && request.selected.None? && request.operation in operations
             && request.operation in catalog.resources[key].operations)
  {
    if operations != [] {
      OperationsListed(catalog, key, operations[1..], request);
      assert operations == [operations[0]] + operations[1..];
    }
  }

  lemma {:induction false} EveryOperationListed(catalog: Catalog, keys: seq<Key>, request: Request)
    requires forall key :: key in keys ==> key in catalog.resources
    ensures request in EveryOperation(catalog, keys)
       <==> (request.key in keys && request.selected.None? && request.operation in FixedOperations
             && request.operation in catalog.resources[request.key].operations)
  {
    if keys != [] {
      EveryOperationListed(catalog, keys[1..], request);
      OperationsListed(catalog, keys[0], FixedOperations, request);
      assert keys == [keys[0]] + keys[1..];
    }
  }

  function KeysOf(catalog: Catalog, scope: string): (keys: seq<Key>)
    ensures forall key :: key in keys <==> key in catalog.resources && InScope(key, scope)
  {
    SortedStrings(set key | key in catalog.resources && InScope(key, scope))
  }

  ghost predicate PageInScope(catalog: Catalog, scope: string, page: string) {
    exists key :: key in catalog.resources && InScope(key, scope) && page in catalog.resources[key].entries
  }

  ghost predicate SomeInAll(catalog: Catalog, scope: string, fields: Fields, part: Part) {
    exists key, operation :: InAll(catalog, scope, key, operation) &&
                             OperationAllows(catalog, key, operation, None, fields, part)
  }

  /** The wildcard allows what some operation of the scope allows, lists no single scopes, and lets every page be
      entered that is shown or belongs to the scope. */
  ghost predicate AllAllows(catalog: Catalog, scope: string, fields: Fields, part: Part) {
    match part
    case AnEndpoint(endpoint) => SomeInAll(catalog, scope, fields, part)
    case APage(page) => HasField(fields, "ui") &&
                        (SomeInAll(catalog, scope, fields, part) || PageInScope(catalog, scope, page))
    case AnEntry(page) => HasField(fields, "ui") &&
                          (SomeInAll(catalog, scope, fields, APage(page)) || PageInScope(catalog, scope, page))
    case AButton(page, button) => SomeInAll(catalog, scope, fields, part)
    case AScope(single) => false
  }

  lemma AllListed(catalog: Catalog, scope: string, request: Request)
    ensures request in EveryOperation(catalog, KeysOf(catalog, scope))
       <==> request.selected.None? && InAll(catalog, scope, request.key, request.operation)
  {
    EveryOperationListed(catalog, KeysOf(catalog, scope), request);
  }

  /** The operations of a scope together allow what one of them does. */
  lemma AllIsTheUnion(catalog: Catalog, scope: string, fields: Fields, part: Part)
    ensures var grant := ResolveEach(catalog, EveryOperation(catalog, KeysOf(catalog, scope)), fields);
            && (grant.Some? <==> forall key, operation :: InAll(catalog, scope, key, operation) ==>
                                                          Operable(catalog, key, operation, None))
            && (grant.Some? ==> (Allows(grant.value, part) <==> SomeInAll(catalog, scope, fields, part)))
  {
    hide Operable, OperationAllows, ResolveOperation, Allows, InAll, EveryOperation;
    var requests := EveryOperation(catalog, KeysOf(catalog, scope));
    forall request ensures request in requests <==>
        request.selected.None? && InAll(catalog, scope, request.key, request.operation) {
      AllListed(catalog, scope, request);
    }
    EachIsTheUnion(catalog, requests, fields, part);
    forall key, operation | InAll(catalog, scope, key, operation) ensures Request(key, operation, None) in requests {
    }
    if ResolveEach(catalog, requests, fields).Some? {
      forall request | request in requests
        ensures RequestAllows(catalog, request, fields, part)
           <==> OperationAllows(catalog, request.key, request.operation, request.selected, fields, part)
      {
        OperatesWhenResolved(catalog, request, fields);
        assert Operates(catalog, request);
        OperationAllowsExactly(catalog, request.key, request.operation, request.selected, fields, part);
      }
      if key, operation :| InAll(catalog, scope, key, operation) &&
                           OperationAllows(catalog, key, operation, None, fields, part) {
        assert RequestAllows(catalog, Request(key, operation, None), fields, part);
      }
    }
  }

  lemma {:induction false} MarkedPagesEnter(ui: seq<UiBinding>, menuKey: string, button: string)
    ensures EntersPage(MarkPages(ui), menuKey) <==> ShowsPage(ui, menuKey)
    ensures ShowsPage(MarkPages(ui), menuKey) <==> ShowsPage(ui, menuKey)
    ensures ShowsButton(MarkPages(ui), menuKey, button) <==> ShowsButton(ui, menuKey, button)
  {
    if ui != [] {
      MarkedPagesEnter(ui[1..], menuKey, button);
      assert ui == [ui[0]] + ui[1..];
      FirstPage(ui[0], ui[1..], menuKey, button);
      FirstPage(ui[0].(pageEntry := true), MarkPages(ui[1..]), menuKey, button);
    }
  }

  lemma {:induction false} MissingEntriesEnter(node: Node, entries: seq<string>, present: set<string>,
                                               menuKey: string, button: string)
    requires forall entry :: entry in entries ==> entry in node.entries
    ensures var added := MissingEntries(node, entries, present);
            && (EntersPage(added, menuKey) <==> menuKey in entries && menuKey !in present)
            && (ShowsPage(added, menuKey) <==> EntersPage(added, menuKey))
            && !ShowsButton(added, menuKey, button)
    decreases entries
  {
    if entries != [] {
      assert entries == [entries[0]] + entries[1..];
      var added := MissingEntries(node, entries, present);
      if entries[0] in present {
        MissingEntriesEnter(node, entries[1..], present, menuKey, button);
      } else {
        MissingEntriesEnter(node, entries[1..], present + {entries[0]}, menuKey, button);
        assert added == [added[0]] + MissingEntries(node, entries[1..], present + {entries[0]});
        FirstPage(added[0], MissingEntries(node, entries[1..], present + {entries[0]}), menuKey, button);
      }
    }
  }

  lemma {:induction false} MissingPagesEnter(catalog: Catalog, keys: seq<Key>, present: set<string>, menuKey: string,
                                             button: string)
    requires forall key :: key in keys ==> key in catalog.resources
    ensures var added := MissingPages(catalog, keys, present);
            && (EntersPage(added, menuKey) <==> menuKey !in present &&
                                                exists key :: key in keys && menuKey in catalog.resources[key].entries)
            && (ShowsPage(added, menuKey) <==> EntersPage(added, menuKey))
            && !ShowsButton(added, menuKey, button)
    decreases keys
  {
    if keys != [] {
      var node := catalog.resources[keys[0]];
      var first := MissingEntries(node, SortedStrings(node.entries.Keys), present);
      MissingEntriesEnter(node, SortedStrings(node.entries.Keys), present, menuKey, button);
      MissingPagesEnter(catalog, keys[1..], present + node.entries.Keys, menuKey, button);
      PagesJoin(first, MissingPages(catalog, keys[1..], present + node.entries.Keys), menuKey, button);
      assert keys == [keys[0]] + keys[1..];
    }
  }

  function AllUi(catalog: Catalog, scope: string, granted: seq<UiBinding>): seq<UiBinding> {
    var ui := MarkPages(granted);
    ui + MissingPages(catalog, KeysOf(catalog, scope), set shown | shown in ui :: shown.menuKey)
  }

  lemma AllUiShows(catalog: Catalog, scope: string, granted: seq<UiBinding>, page: string, button: string)
    ensures var ui := AllUi(catalog, scope, granted);
            && (ShowsPage(ui, page) <==> ShowsPage(granted, page) || PageInScope(catalog, scope, page))
            && (EntersPage(ui, page) <==> ShowsPage(granted, page) || PageInScope(catalog, scope, page))
            && (ShowsButton(ui, page, button) <==> ShowsButton(granted, page, button))
  {
    var keys, ui := KeysOf(catalog, scope), MarkPages(granted);
    var present := set shown | shown in ui :: shown.menuKey;
    MarkedPagesEnter(granted, page, button);
    MissingPagesEnter(catalog, keys, present, page, button);
    PagesJoin(ui, MissingPages(catalog, keys, present), page, button);
    hide MarkPages, MissingPages;
    assert page in present <==> ShowsPage(ui, page) by {
      if page in present {
        var shown :| shown in ui && shown.menuKey == page;
      }
    }
  }

  lemma AllParts(catalog: Catalog, scope: string, fields: Fields)
    ensures var granted := ResolveEach(catalog, EveryOperation(catalog, KeysOf(catalog, scope)), fields);
            ResolveAll(catalog, scope, fields) ==
            if granted.None? then None
            else Some(Grant([], "*", if HasField(fields, "ui") then AllUi(catalog, scope, granted.value.ui)
                            else granted.value.ui,
                            granted.value.endpoints))
  {
    hide ResolveEach, EveryOperation, MarkPages, MissingPages;
  }

  /** The whole scope resolves exactly when every fixed operation in it does, and allows exactly what is told of it. */
  lemma AllAllowsExactly(catalog: Catalog, scope: string, fields: Fields, part: Part)
    ensures ResolveAll(catalog, scope, fields).Some?
       <==> forall key, operation :: InAll(catalog, scope, key, operation) ==> Operable(catalog, key, operation, None)
    ensures ResolveAll(catalog, scope, fields).Some? ==>
              var grant := ResolveAll(catalog, scope, fields).value;
              && grant.permissionScope == "*" && grant.permissionScopes == []
              && (Allows(grant, part) <==> AllAllows(catalog, scope, fields, part))
  {
    AllParts(catalog, scope, fields);
    AllIsTheUnion(catalog, scope, fields, part);
    hide ResolveAll, ResolveEach, EveryOperation, Operable, InAll, AllUi, PageInScope;
    var granted := ResolveEach(catalog, EveryOperation(catalog, KeysOf(catalog, scope)), fields);
    if granted.Some? {
      if part.AnEntry? {
        AllIsTheUnion(catalog, scope, fields, APage(part.page));
      }
      if part.APage? || part.AnEntry? || part.AButton? {
        AllUiShows(catalog, scope, granted.value.ui, part.page, if part.AButton? then part.button else "");
        if !HasField(fields, "ui") {
          NoUiWithoutField(catalog, EveryOperation(catalog, KeysOf(catalog, scope)), fields);
        }
      }
    }
  }

  lemma {:induction false} NoUiWithoutField(catalog: Catalog, requests: seq<Request>, fields: Fields)
    requires !HasField(fields, "ui") && ResolveEach(catalog, requests, fields).Some?
    ensures ResolveEach(catalog, requests, fields).value.ui == []
  {
    if requests != [] {
      NoUiWithoutField(catalog, requests[..|requests| - 1], fields);
    }
  }

  /** Under the wildcard every page of the scope can be entered. */
  lemma AllEntersEveryPage(catalog: Catalog, scope: string, key: Key, page: string)
    requires ResolveAll(catalog, scope, None).Some?
    requires key in catalog.resources && InScope(key, scope) && page in catalog.resources[key].entries
    ensures EntersPage(ResolveAll(catalog, scope, None).value.ui, page)
  {
    hide ResolveAll;
    AllAllowsExactly(catalog, scope, None, AnEntry(page));
  }

  // A stored configuration

  ghost predicate BindingAllows(catalog: Catalog, scope: string, binding: ResourceBinding, fields: Fields, part: Part) {
    var grant := ResolveBinding(catalog, scope, binding.resourceKey, binding.operation, binding.featureKeys, fields);
    grant.Some? && Allows(grant.value, part)
  }

  predicate IsWildcard(catalog: Catalog, binding: ResourceBinding) {
    Wildcard(catalog, binding.resourceKey, binding.operation)
  }

  lemma WildcardMarks(catalog: Catalog, scope: string, binding: ResourceBinding, fields: Fields)
    ensures var grant := ResolveBinding(catalog, scope, binding.resourceKey, binding.operation, binding.featureKeys,
                                        fields);
            grant.Some? ==> grant.value.permissionScope == if IsWildcard(catalog, binding) then "*" else ""
  {
  }

  lemma {:induction false} BindingsAreTheUnion(catalog: Catalog, scope: string, bindings: seq<ResourceBinding>,
                                               fields: Fields, part: Part)
    requires ResolveBindings(catalog, scope, bindings, fields).Some?
    ensures var grant := ResolveBindings(catalog, scope, bindings, fields).value;
            && (Allows(grant, part)
                <==> exists binding :: binding in bindings && BindingAllows(catalog, scope, binding, fields, part))
            && (grant.permissionScope == "*" <==> exists binding :: binding in bindings && IsWildcard(catalog, binding))
            && grant.permissionScope in ["", "*"]
  {
    hide ResolveBinding, IsWildcard, Allows;
    if bindings == [] {
      NothingAllowed(part);
    } else {
      var before, last := bindings[..|bindings| - 1], bindings[|bindings| - 1];
      assert bindings == before + [last];
      assert last in bindings;
      BindingsAreTheUnion(catalog, scope, before, fields, part);
      WildcardMarks(catalog, scope, last, fields);
      JoinAllows(ResolveBindings(catalog, scope, before, fields).value,
                 ResolveBinding(catalog, scope, last.resourceKey, last.operation, last.featureKeys, fields).value,
                     part);
    }
  }

  /** What is kept beside a selection allows the same kinds of parts. */
  ghost predicate ConfigAllows(config: Config, part: Part) {
    match part
    case AnEndpoint(endpoint) => endpoint in config.endpoints
    case APage(page) => ShowsPage(config.ui, page)
    case AnEntry(page) => EntersPage(config.ui, page)
    case AButton(page, button) => ShowsButton(config.ui, page, button)
    case AScope(scope) => scope in config.permissionScopes
  }

  /** Merging pages and dropping repeated endpoints loses nothing and adds nothing. */
  lemma ProjectionAllows(config: Config, grant: Grant, part: Part)
    ensures ConfigAllows(Projection(config, grant), part) <==> Allows(grant, part)
  {
    if part.APage? || part.AnEntry? || part.AButton? {
      MergeKeepsEveryPage(grant.ui, part.page, if part.AButton? then part.button else "");
    }
    hide MergePages;
  }

  /** A configuration with explicit bindings allows exactly what one of its bindings allows, and is unrestricted
      exactly when one of them is. */
  lemma ConfigIsTheUnion(catalog: Catalog, word: string, config: Config, fields: Fields, part: Part)
    requires ResolveConfig(catalog, word, config, fields).Some? && ConfigBindings(config).Some?
    ensures var resolved := ResolveConfig(catalog, word, config, fields).value;
            var bindings := ConfigBindings(config).value;
            && (ConfigAllows(resolved, part)
                <==> exists binding :: binding in bindings &&
                                       BindingAllows(catalog, Scope(word), binding, fields, part))
            && (resolved.permissionScope == "*" <==>
                                          exists binding :: binding in bindings && IsWildcard(catalog, binding))
  {
    hide ConfigAllows, Allows, MergePages, BindingAllows, IsWildcard, BindingsOk, ResolveBindings;
    BindingsAreTheUnion(catalog, Scope(word), ConfigBindings(config).value, fields, part);
    ProjectionAllows(config, ResolveGrant(catalog, word, config, fields).value, part);
  }

  /** Unrestricted configurations keep no pages or endpoints; they are recognised by their mark. */
  predicate Unrestricted(config: Config) {
    config.permissionScope == "*" || config.builtin == "all"
  }

  lemma SameProjectionAllows(a: Config, b: Config, part: Part)
    requires SameProjection(a, b)
    ensures ConfigAllows(a, part) <==> ConfigAllows(b, part)
  {
  }

  /** What is stored beside a default selection is what its readings allow together. */
  lemma DefaultProjection(catalog: Catalog, word: string, config: Config, part: Part)
    requires UpToDate(catalog, word, config) && ConfigBindings(config).None? && config.builtin == "default" &&
             config.resourceKeys.Some?
    ensures Selectable(catalog, Scope(word), config.resourceKeys.value, config.featureKeys)
    ensures var grant := ResolveEach(catalog, ReadRequests(catalog, config.resourceKeys.value, config.featureKeys),
                                     None);
            && grant.Some?
            && (grant.value.permissionScope == "" ==>
                  config.permissionScope == "" && (ConfigAllows(config, part) <==> Allows(grant.value, part)))
  {
    hide ValidConfig, ResolveEach, MergePages, ConfigAllows, Allows;
    var grant := ResolveEach(catalog, ReadRequests(catalog, config.resourceKeys.value, config.featureKeys), None);
    if grant.Some? {
      ProjectionAllows(config, grant.value, part);
      if grant.value.permissionScope == "" {
        SameProjectionAllows(config, Projection(config, grant.value), part);
      }
    }
  }

  // What resolves

  /** Every fixed operation of the scope has nothing but registered features. */
  ghost predicate ScopeOperates(catalog: Catalog, scope: string) {
    forall key, operation :: InAll(catalog, scope, key, operation) ==> Operable(catalog, key, operation, None)
  }

  lemma ScopeResolvesExactly(catalog: Catalog, scope: string, fields: Fields)
    ensures ResolveAll(catalog, scope, fields).Some? <==> ScopeOperates(catalog, scope)
  {
    AllAllowsExactly(catalog, scope, fields, APage(""));
  }

  /** A binding of the scope resolves if its features are registered; the wildcard takes none and needs the scope. */
  ghost predicate BindingOperates(catalog: Catalog, scope: string, binding: ResourceBinding) {
    && InScope(binding.resourceKey, scope)
    && if IsWildcard(catalog, binding)
       then (binding.featureKeys.Some? ==> binding.featureKeys.value == []) && ScopeOperates(catalog, scope)
       else Operable(catalog, binding.resourceKey, binding.operation, binding.featureKeys)
  }

  ghost predicate AllOperate(catalog: Catalog, scope: string, bindings: seq<ResourceBinding>) {
    forall i :: 0 <= i < |bindings| ==> BindingOperates(catalog, scope, bindings[i])
  }

  lemma BindingResolvesExactly(catalog: Catalog, scope: string, binding: ResourceBinding, fields: Fields)
    ensures ResolveBinding(catalog, scope, binding.resourceKey, binding.operation, binding.featureKeys, fields).Some?
       <==> BindingOperates(catalog, scope, binding)
  {
    hide ResolveAll, Operable, ScopeOperates;
    ScopeResolvesExactly(catalog, scope, fields);
  }

  lemma {:induction false} BindingsResolveExactly(catalog: Catalog, scope: string, bindings: seq<ResourceBinding>,
                                                  fields: Fields)
    ensures ResolveBindings(catalog, scope, bindings, fields).Some? <==> AllOperate(catalog, scope, bindings)
  {
    hide BindingOperates, ResolveBinding;
    if bindings != [] {
      BindingsResolveExactly(catalog, scope, bindings[..|bindings| - 1], fields);
      BindingResolvesExactly(catalog, scope, bindings[|bindings| - 1], fields);
    }
  }

  /** Valid bindings of distinct resource and operation pairs. */
  ghost predicate DistinctBindings(word: string, bindings: seq<ResourceBinding>) {
    && (forall i :: 0 <= i < |bindings| ==> ValidResourceBinding(word, bindings[i]))
    && forall i, j :: 0 <= i < j < |bindings| ==>
         bindings[i].resourceKey != bindings[j].resourceKey || bindings[i].operation != bindings[j].operation
  }

  lemma DistinctIsOk(word: string, bindings: seq<ResourceBinding>)
    ensures BindingsOk(word, bindings) <==> DistinctBindings(word, bindings)
  {
    hide ValidIdentity;
    if DistinctBindings(word, bindings) {
      forall i, j | 0 <= i < j < |bindings|
        ensures BindingMerge.Identity(bindings[i]) != BindingMerge.Identity(bindings[j])
      {
        if BindingMerge.Identity(bindings[i]) == BindingMerge.Identity(bindings[j]) {
          ValidOperationsHaveNoColon(bindings[i].operation);
          ValidOperationsHaveNoColon(bindings[j].operation);
          BindingMerge.IdentityIsInjective(bindings[i], bindings[j]);
        }
      }
    }
  }

  /** One way of stating a selection, and everything in it registered. */
  ghost predicate ConfigOperates(catalog: Catalog, word: string, config: Config, fields: Fields) {
    var scope := Scope(word);
    && ValidWord(word)
    && if config.bindings.Some? || config.resourceKey != "" || config.operation != "" then
         var bindings := if config.bindings.Some? then config.bindings.value
                         else [ResourceBinding(config.resourceKey, config.operation, config.featureKeys)];
         && config.builtin == ""
         && !(config.bindings.Some? && (config.resourceKey != "" || config.operation != ""))
         && DistinctBindings(word, bindings)
         && AllOperate(catalog, scope, bindings)
       else if config.builtin == "default" && config.resourceKeys.Some? then
         ResolveResources(catalog, scope, config.resourceKeys.value, config.featureKeys, fields).Some?
       else config.builtin == "all" && ScopeOperates(catalog, scope)
  }

  /** When a stored configuration resolves at all. */
  lemma ConfigResolvesExactly(catalog: Catalog, word: string, config: Config, fields: Fields)
    ensures ResolveConfig(catalog, word, config, fields).Some? <==> ConfigOperates(catalog, word, config, fields)
  {
    hide ResolveAll, ResolveBindings, ResolveResources, ValidWord, BindingsOk, DistinctBindings, AllOperate;
    hide MergePages, ScopeOperates;
    if ConfigBindings(config).Some? {
      DistinctIsOk(word, ConfigBindings(config).value);
      BindingsResolveExactly(catalog, Scope(word), ConfigBindings(config).value, fields);
    } else {
      ScopeResolvesExactly(catalog, Scope(word), fields);
    }
  }
}
