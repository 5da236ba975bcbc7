/**
A catalog edit that only renames keys leaves every action what it was allowed to do.
*/
module RenameMeaning {
  import opened Options
  import opened ResourceCatalog
  import opened Ordering
  import opened Grants
  import opened ActionConfig
  import opened ActionMigration
  import opened ActionTable
  import opened CatalogValidation
  import opened GrantMeaning

  predicate SameFeature(a: Feature, b: Feature) {
    a.http == b.http && a.grpc == b.grpc && a.permissionResource == b.permissionResource
  }

  predicate FeatureRenamed(edit: Edit, feature: string)
    requires feature in edit.before.buttons
  {
    var to := MigratedKey(edit.features, feature);
    to in edit.after.buttons && SameFeature(edit.before.buttons[feature], edit.after.buttons[to])
  }

  predicate ResourceRenamed(edit: Edit, key: Key)
    requires key in edit.before.resources
  {
    var to := MigratedKey(edit.resources, key);
    && to in edit.after.resources
    && (':' in key <==> ':' in to)
    && var before, after := edit.before.resources[key], edit.after.resources[to];
       && after.kind == before.kind && after.permissionScope == before.permissionScope
       && after.operations.Keys == before.operations.Keys
       && forall operation :: operation in before.operations ==>
            after.operations[operation].buttonKeys ==
                MigratedKeys(edit.features, before.operations[operation].buttonKeys)
  }

  /** Every feature and resource is found again under its new name, no two share one, and nothing was added. */
  ghost predicate OnlyRenames(edit: Edit) {
    && ValidEdit(edit)
    && (forall feature :: feature in edit.before.buttons ==> FeatureRenamed(edit, feature))
    && (forall a, b :: a in edit.before.buttons && b in edit.before.buttons && a != b ==>
          MigratedKey(edit.features, a) != MigratedKey(edit.features, b))
    && (forall key :: key in edit.before.resources ==> ResourceRenamed(edit, key))
    && (forall to :: to in edit.after.resources ==>
                                  exists key :: key in edit.before.resources && MigratedKey(edit.resources, key) == to)
  }

  /** The pages and buttons that features, operations and resources name are the old ones. */
  ghost predicate PagesKept(edit: Edit) {
    && (forall feature :: feature in edit.before.buttons &&
                          MigratedKey(edit.features, feature) in edit.after.buttons ==>
          var before, after := edit.before.buttons[feature], edit.after.buttons[MigratedKey(edit.features, feature)];
          after.entryKeys == before.entryKeys && after.buttons == before.buttons)
    && (forall key :: key in edit.before.resources && MigratedKey(edit.resources, key) in edit.after.resources ==>
          NodePagesKept(edit.before.resources[key], edit.after.resources[MigratedKey(edit.resources, key)]))
  }

  predicate NodePagesKept(before: Node, after: Node) {
    && after.entries == before.entries
    && forall operation :: operation in before.operations && operation in after.operations ==>
         after.operations[operation].entryKeys == before.operations[operation].entryKeys
  }

  /** The parts of a grant that an edit has to keep: pages and buttons only if the catalog keeps them. */
  ghost predicate Keeps(edit: Edit, part: Part) {
    OnlyRenames(edit) && (part.AnEndpoint? || part.AScope? || PagesKept(edit))
  }

  // Features

  ghost predicate SomeFeature(catalog: Catalog, features: seq<string>, p: Feature -> bool) {
    exists feature :: feature in features && feature in catalog.buttons && p(catalog.buttons[feature])
  }

  lemma RenamedFeatures(edit: Edit, features: seq<string>, p: Feature -> bool)
    requires OnlyRenames(edit)
    requires forall feature :: feature in features ==> feature in edit.before.buttons
    requires forall feature :: feature in edit.before.buttons &&
                               MigratedKey(edit.features, feature) in edit.after.buttons ==>
               (p(edit.before.buttons[feature]) <==> p(edit.after.buttons[MigratedKey(edit.features, feature)]))
    ensures SomeFeature(edit.after, MigratedKeys(edit.features, features), p) <==> SomeFeature(edit.before, features, p)
  {
    var renamed := MigratedKeys(edit.features, features);
    forall i | 0 <= i < |features|
      ensures renamed[i] in edit.after.buttons && features[i] in edit.before.buttons
      ensures p(edit.after.buttons[renamed[i]]) <==> p(edit.before.buttons[features[i]])
    {
      assert FeatureRenamed(edit, features[i]);
    }
    if feature :| feature in renamed && feature in edit.after.buttons && p(edit.after.buttons[feature]) {
      var i :| 0 <= i < |renamed| && renamed[i] == feature;
      assert features[i] in features;
    }
    if feature :| feature in features && feature in edit.before.buttons && p(edit.before.buttons[feature]) {
      var i :| 0 <= i < |features| && features[i] == feature;
      assert renamed[i] in renamed;
    }
  }

  lemma SameBrings(a: Feature, b: Feature, fields: Fields, endpoint: Endpoint)
    requires SameFeature(a, b)
    ensures Brings(a, fields, endpoint) <==> Brings(b, fields, endpoint)
  {
    assert HttpEndpoints(a) == HttpEndpoints(b) && GrpcEndpoints(a) == GrpcEndpoints(b);
  }

  lemma RenamedBring(edit: Edit, features: seq<string>, fields: Fields, endpoint: Endpoint)
    requires OnlyRenames(edit)
    requires forall feature :: feature in features ==> feature in edit.before.buttons
    ensures SomeBrings(edit.after, MigratedKeys(edit.features, features), fields, endpoint)
       <==> SomeBrings(edit.before, features, fields, endpoint)
  {
    var p := (feature: Feature) => Brings(feature, fields, endpoint);
    forall feature | feature in edit.before.buttons && MigratedKey(edit.features, feature) in edit.after.buttons
      ensures p(edit.before.buttons[feature]) <==> p(edit.after.buttons[MigratedKey(edit.features, feature)])
    {
      assert FeatureRenamed(edit, feature);
      SameBrings(edit.before.buttons[feature], edit.after.buttons[MigratedKey(edit.features, feature)], fields,
                 endpoint);
    }
    hide OnlyRenames, Brings;
    RenamedFeatures(edit, features, p);
    assert SomeBrings(edit.before, features, fields, endpoint) <==> SomeFeature(edit.before, features, p);
    assert SomeBrings(edit.after, MigratedKeys(edit.features, features), fields, endpoint)
      <==> SomeFeature(edit.after, MigratedKeys(edit.features, features), p);
  }

  lemma RenamedScope(edit: Edit, operation: string, features: seq<string>, scope: string)
    requires OnlyRenames(edit)
    requires forall feature :: feature in features ==> feature in edit.before.buttons
    ensures SomeScopes(edit.after, operation, MigratedKeys(edit.features, features), scope)
       <==> SomeScopes(edit.before, operation, features, scope)
  {
    var p := (feature: Feature) => ScopedAs(feature, operation, scope);
    forall feature | feature in edit.before.buttons && MigratedKey(edit.features, feature) in edit.after.buttons
      ensures p(edit.before.buttons[feature]) <==> p(edit.after.buttons[MigratedKey(edit.features, feature)])
    {
      assert FeatureRenamed(edit, feature);
    }
    hide OnlyRenames, ScopedAs;
    RenamedFeatures(edit, features, p);
    assert SomeScopes(edit.before, operation, features, scope) <==> SomeFeature(edit.before, features, p);
    assert SomeScopes(edit.after, operation, MigratedKeys(edit.features, features), scope)
      <==> SomeFeature(edit.after, MigratedKeys(edit.features, features), p);
  }

  lemma RenamedPress(edit: Edit, features: seq<string>, button: string)
    requires OnlyRenames(edit) && PagesKept(edit)
    requires forall feature :: feature in features ==> feature in edit.before.buttons
    ensures SomePresses(edit.after, MigratedKeys(edit.features, features), button) <==>
            SomePresses(edit.before, features, button)
  {
    hide OnlyRenames;
    var p := (feature: Feature) => button in feature.buttons;
    RenamedFeatures(edit, features, p);
    assert SomePresses(edit.before, features, button) <==> SomeFeature(edit.before, features, p);
    assert SomePresses(edit.after, MigratedKeys(edit.features, features), button)
      <==> SomeFeature(edit.after, MigratedKeys(edit.features, features), p);
  }

  lemma RenamedEnters(edit: Edit, before: OperationBinding, after: OperationBinding, features: seq<string>,
                      page: string)
    requires OnlyRenames(edit) && PagesKept(edit) && after.entryKeys == before.entryKeys
    requires forall feature :: feature in features ==> feature in edit.before.buttons
    ensures Enters(edit.after, after, MigratedKeys(edit.features, features), page) <==>
            Enters(edit.before, before, features, page)
  {
    hide OnlyRenames;
    var p := (feature: Feature) => page in feature.entryKeys;
    RenamedFeatures(edit, features, p);
    assert Enters(edit.before, before, features, page) <==>
           page in before.entryKeys || SomeFeature(edit.before, features, p);
    assert Enters(edit.after, after, MigratedKeys(edit.features, features), page)
      <==> page in after.entryKeys || SomeFeature(edit.after, MigratedKeys(edit.features, features), p);
  }

  /** A page belongs to some resource before exactly when it does after. */
  lemma RenamedOwners(edit: Edit, page: string)
    requires OnlyRenames(edit) && PagesKept(edit)
    ensures Owners(edit.after, page) == {} <==> Owners(edit.before, page) == {}
  {
    if key :| key in Owners(edit.before, page) {
      assert ResourceRenamed(edit, key);
      assert MigratedKey(edit.resources, key) in Owners(edit.after, page);
    }
    if to :| to in Owners(edit.after, page) {
      var key :| key in edit.before.resources && MigratedKey(edit.resources, key) == to;
      assert key in Owners(edit.before, page);
    }
  }

  lemma RenamedShown(edit: Edit, key: Key, before: OperationBinding, after: OperationBinding, features: seq<string>,
                     page: string)
    requires OnlyRenames(edit) && PagesKept(edit) && key in edit.before.resources
    requires MigratedKey(edit.resources, key) in edit.after.resources && after.entryKeys == before.entryKeys
    requires forall feature :: feature in features ==> feature in edit.before.buttons
    ensures Shown(edit.after, MigratedKey(edit.resources, key), after, MigratedKeys(edit.features, features), page)
       <==> Shown(edit.before, key, before, features, page)
  {
    var renamed := MigratedKeys(edit.features, features);
    assert NodePagesKept(edit.before.resources[key], edit.after.resources[MigratedKey(edit.resources, key)]);
    hide OnlyRenames, PagesKept, SomePresses, Enters, Owners, ButtonOf;
    RenamedOwners(edit, page);
    RenamedEnters(edit, before, after, features, page);
    forall button ensures SomePresses(edit.after, renamed, button) <==> SomePresses(edit.before, features, button) {
      RenamedPress(edit, features, button);
    }
  }

  // Operations

  lemma RenamedIsRegistered(edit: Edit, key: Key, operation: string, features: seq<string>)
    requires OnlyRenames(edit) && key in edit.before.resources && operation in edit.before.resources[key].operations
    requires Registered(edit.before, edit.before.resources[key].operations[operation], features)
    ensures ResourceRenamed(edit, key)
    ensures Registered(edit.after, edit.after.resources[MigratedKey(edit.resources, key)].operations[operation],
                       MigratedKeys(edit.features, features))
  {
    assert ResourceRenamed(edit, key);
    var before := edit.before.resources[key].operations[operation];
    var after := edit.after.resources[MigratedKey(edit.resources, key)].operations[operation];
    var renamed := MigratedKeys(edit.features, features);
    forall i | 0 <= i < |renamed| ensures renamed[i] in edit.after.buttons && renamed[i] in after.buttonKeys {
      assert FeatureRenamed(edit, features[i]);
      var at :| 0 <= at < |before.buttonKeys| && before.buttonKeys[at] == features[i];
      assert after.buttonKeys[at] == renamed[i];
    }
  }

  /** A renamed operation is registered again and allows the same. */
  lemma RenamedOperationAllows(edit: Edit, key: Key, operation: string, selected: Option<seq<string>>, fields: Fields,
                               part: Part)
    requires Keeps(edit, part) && Operable(edit.before, key, operation, selected)
    ensures var to, renamed := MigratedKey(edit.resources, key), MigratedList(edit.features, selected);
            && Operable(edit.after, to, operation, renamed)
            && (OperationAllows(edit.after, to, operation, renamed, fields, part)
                <==> OperationAllows(edit.before, key, operation, selected, fields, part))
  {
    var to := MigratedKey(edit.resources, key);
    var before := edit.before.resources[key].operations[operation];
    var features := Chosen(before, selected);
    RenamedIsRegistered(edit, key, operation, features);
    var after := edit.after.resources[to].operations[operation];
    assert Chosen(after, MigratedList(edit.features, selected)) == MigratedKeys(edit.features, features);
    assert PagesKept(edit) ==> after.entryKeys == before.entryKeys by {
      assert PagesKept(edit) ==> NodePagesKept(edit.before.resources[key], edit.after.resources[to]);
    }
    forall feature | feature in features ensures feature in edit.before.buttons {
      var i :| 0 <= i < |features| && features[i] == feature;
    }
    hide OnlyRenames, PagesKept, Shown, Enters, SomePresses, SomeBrings, SomeScopes, ButtonOf;
    match part
    case AnEndpoint(endpoint) => RenamedBring(edit, features, fields, endpoint);
    case APage(page) => RenamedShown(edit, key, before, after, features, page);
    case AnEntry(page) =>
      RenamedShown(edit, key, before, after, features, page);
      RenamedEnters(edit, before, after, features, page);
    case AButton(page, button) =>
      RenamedShown(edit, key, before, after, features, page);
      RenamedPress(edit, features, button);
    case AScope(scope) => RenamedScope(edit, operation, features, scope);
  }

  lemma RenamedRequestAllows(edit: Edit, request: Request, fields: Fields, part: Part)
    requires Keeps(edit, part) && Operates(edit.before, request)
    ensures var renamed := Request(MigratedKey(edit.resources, request.key), request.operation,
                                   MigratedList(edit.features, request.selected));
            && Operates(edit.after, renamed)
            && (RequestAllows(edit.after, renamed, fields, part) <==> RequestAllows(edit.before, request, fields, part))
  {
    hide Keeps, OperationAllows, Allows, Operable, ResolveOperation;
    var renamed := Request(MigratedKey(edit.resources, request.key), request.operation,
                           MigratedList(edit.features, request.selected));
    RenamedOperationAllows(edit, request.key, request.operation, request.selected, fields, part);
    OperatesWhenResolved(edit.before, request, fields);
    OperatesWhenResolved(edit.after, renamed, fields);
    OperationAllowsExactly(edit.before, request.key, request.operation, request.selected, fields, part);
    OperationAllowsExactly(edit.after, renamed.key, renamed.operation, renamed.selected, fields, part);
  }

  lemma RenamedStaysInScope(edit: Edit, key: Key, scope: string)
    requires OnlyRenames(edit) && key in edit.before.resources && ':' !in scope
    ensures InScope(MigratedKey(edit.resources, key), scope) <==> InScope(key, scope)
  {
    var to := MigratedKey(edit.resources, key);
    assert ResourceRenamed(edit, key);
    assert key in edit.resources ==>
           ValidRename(edit.resources, edit.before.resources.Keys, edit.after.resources.Keys, key);
    assert Scope(to) == Scope(key);
    ScopedKey(key, scope);
    ScopedKey(to, scope);
  }

  lemma ScopedKey(key: Key, scope: string)
    requires ':' !in scope
    ensures InScope(key, scope) <==> ':' in key && Scope(key) == scope
  {
    if InScope(key, scope) {
      ScopeIsThePrefix(key, scope);
      assert key[|scope|] == (scope + ":")[|scope|] == ':';
    }
  }

  lemma RenamedInAll(edit: Edit, scope: string, key: Key, operation: string)
    requires OnlyRenames(edit) && ':' !in scope && key in edit.before.resources
    ensures InAll(edit.after, scope, MigratedKey(edit.resources, key), operation) <==>
            InAll(edit.before, scope, key, operation)
  {
    assert ResourceRenamed(edit, key);
    RenamedStaysInScope(edit, key, scope);
  }

  lemma RenamedFrom(edit: Edit, to: Key) returns (key: Key)
    requires OnlyRenames(edit) && to in edit.after.resources
    ensures key in edit.before.resources && MigratedKey(edit.resources, key) == to
  {
    key :| key in edit.before.resources && MigratedKey(edit.resources, key) == to;
  }

  lemma RenamedOneInAll(edit: Edit, scope: string, key: Key, operation: string, fields: Fields, part: Part)
    requires Keeps(edit, part) && ':' !in scope && key in edit.before.resources
    requires InAll(edit.before, scope, key, operation) ==> Operable(edit.before, key, operation, None)
    ensures var to := MigratedKey(edit.resources, key);
            && (InAll(edit.after, scope, to, operation) <==> InAll(edit.before, scope, key, operation))
            && (InAll(edit.before, scope, key, operation) ==>
                  && Operable(edit.after, to, operation, None)
                  && (OperationAllows(edit.after, to, operation, None, fields, part)
                      <==> OperationAllows(edit.before, key, operation, None, fields, part)))
  {
    assert OnlyRenames(edit);
    hide Keeps, OnlyRenames, OperationAllows, Operable, InAll;
    RenamedInAll(edit, scope, key, operation);
    if InAll(edit.before, scope, key, operation) {
      RenamedOperationAllows(edit, key, operation, None, fields, part);
    }
  }

  lemma RenamedSomeInAll(edit: Edit, scope: string, fields: Fields, part: Part)
    requires Keeps(edit, part) && ':' !in scope
    requires forall key, operation :: InAll(edit.before, scope, key, operation) ==>
                                      Operable(edit.before, key, operation, None)
    ensures SomeInAll(edit.after, scope, fields, part) <==> SomeInAll(edit.before, scope, fields, part)
  {
    assert OnlyRenames(edit);
    hide Keeps, OnlyRenames, OperationAllows, Operable, MigratedKey;
    if key, operation :| InAll(edit.before, scope, key, operation) &&
                         OperationAllows(edit.before, key, operation, None, fields, part) {
      RenamedOneInAll(edit, scope, key, operation, fields, part);
    }
    if to, operation :| InAll(edit.after, scope, to, operation) &&
                        OperationAllows(edit.after, to, operation, None, fields, part) {
      var key := RenamedFrom(edit, to);
      RenamedOneInAll(edit, scope, key, operation, fields, part);
    }
  }

  lemma RenamedPageInScope(edit: Edit, scope: string, page: string)
    requires OnlyRenames(edit) && PagesKept(edit) && ':' !in scope
    ensures PageInScope(edit.after, scope, page) <==> PageInScope(edit.before, scope, page)
  {
    if key :| key in edit.before.resources && InScope(key, scope) && page in edit.before.resources[key].entries {
      assert ResourceRenamed(edit, key);
      RenamedStaysInScope(edit, key, scope);
      assert NodePagesKept(edit.before.resources[key], edit.after.resources[MigratedKey(edit.resources, key)]);
    }
    if to :| to in edit.after.resources && InScope(to, scope) && page in edit.after.resources[to].entries {
      var key := RenamedFrom(edit, to);
      RenamedStaysInScope(edit, key, scope);
      assert NodePagesKept(edit.before.resources[key], edit.after.resources[to]);
    }
  }

  /** Everything in a scope resolves again and allows the same. */
  lemma RenamedAll(edit: Edit, scope: string, fields: Fields, part: Part)
    requires Keeps(edit, part) && ':' !in scope
    requires ResolveAll(edit.before, scope, fields).Some?
    ensures var before, after := ResolveAll(edit.before, scope, fields), ResolveAll(edit.after, scope, fields);
            after.Some? && (Allows(after.value, part) <==> Allows(before.value, part))
  {
    assert OnlyRenames(edit);
    AllAllowsExactly(edit.before, scope, fields, part);
    AllAllowsExactly(edit.after, scope, fields, part);
    hide OnlyRenames, ResolveAll, Operable, OperationAllows, Allows, SomeInAll, PageInScope, PagesKept;
    forall to, operation | InAll(edit.after, scope, to, operation) ensures Operable(edit.after, to, operation, None) {
      var key := RenamedFrom(edit, to);
      RenamedOneInAll(edit, scope, key, operation, fields, part);
    }
    RenamedSomeInAll(edit, scope, fields, part);
    if part.APage? || part.AnEntry? {
      RenamedPageInScope(edit, scope, part.page);
      RenamedSomeInAll(edit, scope, fields, APage(part.page));
    }
  }

  /** A renamed binding resolves again and allows the same, wildcard or not. */
  lemma RenamedBindingAllows(edit: Edit, scope: string, binding: ResourceBinding, fields: Fields, part: Part)
    requires Keeps(edit, part) && ':' !in scope
    requires ResolveBinding(edit.before, scope, binding.resourceKey, binding.operation, binding.featureKeys,
                            fields).Some?
    ensures BindingAllows(edit.after, scope, RenamedBinding(edit, binding), fields, part)
       <==> BindingAllows(edit.before, scope, binding, fields, part)
    ensures IsWildcard(edit.after, RenamedBinding(edit, binding)) <==> IsWildcard(edit.before, binding)
  {
    assert OnlyRenames(edit);
    hide ResolveBinding, IsWildcard, OnlyRenames, Keeps, BindingAllows, RenamedBinding;
    KeyIsKnown(edit, scope, binding, fields);
    RenamedWildcard(edit, binding);
    BindingIsOneOrAll(edit.before, scope, binding, fields, part);
    BindingIsOneOrAll(edit.after, scope, RenamedBinding(edit, binding), fields, part);
    RenamedStaysInScope(edit, binding.resourceKey, scope);
    hide InScope, RequestAllows, Allows, ResolveAll;
    if IsWildcard(edit.before, binding) {
      RenamedAll(edit, scope, fields, part);
    } else {
      RenamedRequestAllows(edit, RequestOf(binding), fields, part);
    }
  }

  function RequestOf(binding: ResourceBinding): Request {
    Request(binding.resourceKey, binding.operation, binding.featureKeys)
  }

  lemma RenamedWildcard(edit: Edit, binding: ResourceBinding)
    requires OnlyRenames(edit) && binding.resourceKey in edit.before.resources
    ensures IsWildcard(edit.after, RenamedBinding(edit, binding)) <==> IsWildcard(edit.before, binding)
    ensures RequestOf(RenamedBinding(edit, binding))
         == Request(MigratedKey(edit.resources, binding.resourceKey), binding.operation,
                    MigratedList(edit.features, binding.featureKeys))
    ensures binding.featureKeys.Some? ==>
              RenamedBinding(edit, binding).featureKeys.Some?
              && |RenamedBinding(edit, binding).featureKeys.value| == |binding.featureKeys.value|
    ensures binding.featureKeys.None? ==> RenamedBinding(edit, binding).featureKeys.None?
  {
    assert ResourceRenamed(edit, binding.resourceKey);
  }

  /** A binding is one operation or, under the wildcard, everything. */
  lemma BindingIsOneOrAll(catalog: Catalog, scope: string, binding: ResourceBinding, fields: Fields, part: Part)
    ensures BindingAllows(catalog, scope, binding, fields, part)
       <==> InScope(binding.resourceKey, scope)
            && if IsWildcard(catalog, binding)
               then (binding.featureKeys.None? || |binding.featureKeys.value| == 0)
                    && ResolveAll(catalog, scope, fields).Some? &&
                          Allows(ResolveAll(catalog, scope, fields).value, part)
               else RequestAllows(catalog, RequestOf(binding), fields, part)
    ensures ResolveBinding(catalog, scope, binding.resourceKey, binding.operation, binding.featureKeys,
                           fields).Some? ==>
              && InScope(binding.resourceKey, scope)
              && if IsWildcard(catalog, binding)
                 then (binding.featureKeys.None? || |binding.featureKeys.value| == 0) &&
                      ResolveAll(catalog, scope, fields).Some?
                 else Operates(catalog, RequestOf(binding))
  {
    hide ResolveAll, Allows, InScope;
    OperatesWhenResolved(catalog, RequestOf(binding), fields);
  }

  lemma KeyIsKnown(edit: Edit, scope: string, binding: ResourceBinding, fields: Fields)
    requires ResolveBinding(edit.before, scope, binding.resourceKey, binding.operation, binding.featureKeys,
                            fields).Some?
    ensures binding.resourceKey in edit.before.resources
  {
    hide ResolveAll;
  }

  // Stored actions

  /** Nothing becomes a directory, so the migration is the rename of every key. */
  lemma OnlyKeysChange(edit: Edit, config: Config, selection: Config)
    requires OnlyRenames(edit) && SelectionMigrated(edit, config, selection)
    ensures selection == RenamedConfig(edit, config)
  {
    forall key ensures !BecameDirectory(edit, key) {
      assert key in edit.before.resources ==> ResourceRenamed(edit, key);
    }
    var listed, converted :| BindingsConverted(edit, config, listed) && DefaultsConverted(edit, listed, converted)
                             && selection == RenamedConfig(edit, converted);
  }

  lemma RenamedConfigBindings(edit: Edit, config: Config)
    requires config.bindings.Some? || config.resourceKey != ""
    ensures ConfigBindings(RenamedConfig(edit, config)) == Some(RenamedBindings(edit, ConfigBindings(config).value))
  {
    if config.bindings.None? {
      var single := [ResourceBinding(config.resourceKey, config.operation, config.featureKeys)];
      assert RenamedBindings(edit, single) == [RenamedBinding(edit, single[0])];
    }
  }

  lemma {:induction false} EachBindingResolves(catalog: Catalog, scope: string, bindings: seq<ResourceBinding>,
                                               fields: Fields, binding: ResourceBinding)
    requires ResolveBindings(catalog, scope, bindings, fields).Some? && binding in bindings
    ensures ResolveBinding(catalog, scope, binding.resourceKey, binding.operation, binding.featureKeys, fields).Some?
  {
    hide ResolveBinding;
    var last := bindings[|bindings| - 1];
    if binding != last {
      assert bindings == bindings[..|bindings| - 1] + [last];
      EachBindingResolves(catalog, scope, bindings[..|bindings| - 1], fields, binding);
    }
  }

  lemma ResolvedKeyIsNamed(catalog: Catalog, word: string, config: Config, fields: Fields)
    requires ResolveConfig(catalog, word, config, fields).Some? && ConfigBindings(config).Some?
    ensures config.bindings.Some? || config.resourceKey != ""
  {
    if config.bindings.None? {
      var single := ResourceBinding(config.resourceKey, config.operation, config.featureKeys);
      EachBindingResolves(catalog, Scope(word), [single], fields, single);
    }
  }

  ghost predicate SomeAllows(catalog: Catalog, scope: string, bindings: seq<ResourceBinding>, fields: Fields,
                             part: Part)
  {
    exists binding :: binding in bindings && BindingAllows(catalog, scope, binding, fields, part)
  }

  ghost predicate SomeIsWildcard(catalog: Catalog, bindings: seq<ResourceBinding>) {
    exists binding :: binding in bindings && IsWildcard(catalog, binding)
  }

  lemma RenamedBindingsAllow(edit: Edit, scope: string, bindings: seq<ResourceBinding>, fields: Fields, part: Part)
    requires Keeps(edit, part) && ':' !in scope && ResolveBindings(edit.before, scope, bindings, fields).Some?
    ensures SomeAllows(edit.after, scope, RenamedBindings(edit, bindings), fields, part)
       <==> SomeAllows(edit.before, scope, bindings, fields, part)
    ensures SomeIsWildcard(edit.after, RenamedBindings(edit, bindings)) <==> SomeIsWildcard(edit.before, bindings)
  {
    hide ResolveBinding, BindingAllows, IsWildcard, RenamedBinding, Keeps;
    var renamed := RenamedBindings(edit, bindings);
    forall i | 0 <= i < |bindings|
      ensures BindingAllows(edit.after, scope, renamed[i], fields, part)
         <==> BindingAllows(edit.before, scope, bindings[i], fields, part)
      ensures IsWildcard(edit.after, renamed[i]) <==> IsWildcard(edit.before, bindings[i])
    {
      EachBindingResolves(edit.before, scope, bindings, fields, bindings[i]);
      RenamedBindingAllows(edit, scope, bindings[i], fields, part);
    }
    SameSomewhere(renamed, bindings, binding => BindingAllows(edit.after, scope, binding, fields, part),
                  binding => BindingAllows(edit.before, scope, binding, fields, part));
    SameSomewhere(renamed, bindings, binding => IsWildcard(edit.after, binding),
                  binding => IsWildcard(edit.before, binding));
  }

  /** The renamed selection allows the same and is unrestricted exactly when the old one was. */
  lemma RenamedConfigAllows(edit: Edit, word: string, config: Config, selection: Config, fields: Fields, part: Part)
    requires Keeps(edit, part) && SelectionMigrated(edit, config, selection) && ConfigBindings(config).Some?
    requires ResolveConfig(edit.before, word, config, fields).Some? &&
             ResolveConfig(edit.after, word, selection, fields).Some?
    ensures var before := ResolveConfig(edit.before, word, config, fields).value;
            var after := ResolveConfig(edit.after, word, selection, fields).value;
            && (ConfigAllows(after, part) <==> ConfigAllows(before, part))
            && (after.permissionScope == "*" <==> before.permissionScope == "*")
  {
    hide ResolveConfig, ResolveBindings, SelectionMigrated, ConfigBindings, RenamedConfig, BindingAllows, IsWildcard,
        ConfigAllows;
    assert OnlyRenames(edit);
    hide Keeps, OnlyRenames;
    var bindings := ConfigBindings(config).value;
    BindingsResolve(edit.before, word, config, fields);
    OnlyKeysChange(edit, config, selection);
    ResolvedKeyIsNamed(edit.before, word, config, fields);
    RenamedConfigBindings(edit, config);
    ConfigIsTheUnion(edit.before, word, config, fields, part);
    ConfigIsTheUnion(edit.after, word, selection, fields, part);
    RenamedBindingsAllow(edit, Scope(word), bindings, fields, part);
  }

  lemma BindingsResolve(catalog: Catalog, word: string, config: Config, fields: Fields)
    requires ResolveConfig(catalog, word, config, fields).Some? && ConfigBindings(config).Some?
    ensures ResolveBindings(catalog, Scope(word), ConfigBindings(config).value, fields).Some?
  {
    hide ResolveBindings;
  }

  lemma SameSomewhere<T(!new)>(a: seq<T>, b: seq<T>, p: T -> bool, q: T -> bool)
    requires |a| == |b| && forall i :: 0 <= i < |a| ==> (p(a[i]) <==> q(b[i]))
    ensures (exists x :: x in a && p(x)) <==> (exists x :: x in b && q(x))
  {
    if x :| x in a && p(x) {
      var i :| 0 <= i < |a| && a[i] == x;
      assert b[i] in b && q(b[i]);
    }
    if x :| x in b && q(x) {
      var i :| 0 <= i < |b| && b[i] == x;
      assert a[i] in a && p(a[i]);
    }
  }

  // The default selection

  function Reading(catalog: Catalog, key: Key, selected: Option<seq<string>>): Request
    requires key in catalog.resources && "read" in catalog.resources[key].operations
  {
    var registered := catalog.resources[key].operations["read"].buttonKeys;
    Request(key, "read", if selected.None? then None else Some(Keep(feature => feature in selected.value, registered)))
  }

  lemma {:induction false} ReadingsListed(catalog: Catalog, keys: seq<Key>, selected: Option<seq<string>>,
                                          request: Request)
    requires forall key :: key in keys ==> key in catalog.resources && "read" in catalog.resources[key].operations
    ensures request in ReadRequests(catalog, keys, selected) <==>
                                  exists key :: key in keys && request == Reading(catalog, key, selected)
  {
    if keys != [] {
      ReadingsListed(catalog, keys[1..], selected, request);
      assert keys == [keys[0]] + keys[1..];
      assert ReadRequests(catalog, keys, selected) ==
          [Reading(catalog, keys[0], selected)] + ReadRequests(catalog, keys[1..], selected);
    }
  }

  /** Selecting and renaming commute, since no two features share a new name. */
  lemma {:induction false} KeepRenamed(edit: Edit, registered: seq<string>, selected: seq<string>)
    requires OnlyRenames(edit)
    requires forall feature :: feature in registered || feature in selected ==> feature in edit.before.buttons
    ensures Keep(feature => feature in MigratedKeys(edit.features, selected), MigratedKeys(edit.features, registered))
         == MigratedKeys(edit.features, Keep(feature => feature in selected, registered))
  {
    var renamedSelection := MigratedKeys(edit.features, selected);
    var keepBefore := feature => feature in selected;
    var keepAfter := feature => feature in renamedSelection;
    if registered == [] {
      NothingRenamed(edit);
    } else {
      var first, rest := registered[0], registered[1..];
      var to, kept := MigratedKey(edit.features, first), Keep(keepBefore, rest);
      assert first in registered && registered == [first] + rest;
      SelectedWhenRenamed(edit, first, selected);
      KeepRenamed(edit, rest, selected);
      hide OnlyRenames, MigratedKeys, Keep;
      RenamedFirst(edit, first, rest);
      RenamedFirst(edit, first, kept);
      KeepFirst(keepAfter, to, MigratedKeys(edit.features, rest));
      KeepFirst(keepBefore, first, rest);
      if first !in selected {
        assert [] + kept == kept && [] + MigratedKeys(edit.features, kept) == MigratedKeys(edit.features, kept);
      }
    }
  }

  lemma NothingRenamed(edit: Edit)
    ensures MigratedKeys(edit.features, []) == []
  {
  }

  lemma RenamedFirst(edit: Edit, first: string, rest: seq<string>)
    ensures MigratedKeys(edit.features, [first] + rest) ==
        [MigratedKey(edit.features, first)] + MigratedKeys(edit.features, rest)
  {
  }

  lemma SelectedWhenRenamed(edit: Edit, feature: string, selected: seq<string>)
    requires OnlyRenames(edit) && feature in edit.before.buttons
    requires forall known :: known in selected ==> known in edit.before.buttons
    ensures MigratedKey(edit.features, feature) in MigratedKeys(edit.features, selected) <==> feature in selected
  {
    var renamed := MigratedKeys(edit.features, selected);
    if feature in selected {
      var i :| 0 <= i < |selected| && selected[i] == feature;
      assert renamed[i] in renamed;
    }
    if MigratedKey(edit.features, feature) in renamed {
      var i :| 0 <= i < |renamed| && renamed[i] == MigratedKey(edit.features, feature);
      assert selected[i] in selected;
    }
  }

  lemma RegisteredReading(catalog: Catalog, key: Key, feature: string)
    requires Sound(catalog) && key in catalog.resources && "read" in catalog.resources[key].operations
    requires feature in catalog.resources[key].operations["read"].buttonKeys
    ensures feature in catalog.buttons
  {
    var listed := catalog.resources[key].operations["read"].buttonKeys;
    assert NodeOk(catalog, key) && OperationOk(catalog, key, catalog.resources[key], "read");
    var i :| 0 <= i < |listed| && listed[i] == feature;
  }

  /** Reading a renamed resource allows what reading it allowed. */
  lemma RenamedReadingAllows(edit: Edit, key: Key, selected: Option<seq<string>>, part: Part)
    requires Keeps(edit, part) && Sound(edit.before)
    requires key in edit.before.resources && "read" in edit.before.resources[key].operations
    requires selected.Some? ==> forall feature :: feature in selected.value ==> feature in edit.before.buttons
    requires Operates(edit.before, Reading(edit.before, key, selected))
    ensures ReadingAllows(edit.after, MigratedKey(edit.resources, key), MigratedList(edit.features, selected), part)
       <==> ReadingAllows(edit.before, key, selected, part)
  {
    assert ResourceRenamed(edit, key);
    var request := Reading(edit.before, key, selected);
    if selected.Some? {
      forall feature | feature in edit.before.resources[key].operations["read"].buttonKeys
        ensures feature in edit.before.buttons {
        RegisteredReading(edit.before, key, feature);
      }
      KeepRenamed(edit, edit.before.resources[key].operations["read"].buttonKeys, selected.value);
    }
    assert Reading(edit.after, MigratedKey(edit.resources, key), MigratedList(edit.features, selected))
        == Request(MigratedKey(edit.resources, key), "read", MigratedList(edit.features, request.selected));
    hide Keeps, Operable, ResolveOperation;
    RenamedRequestAllows(edit, request, None, part);
  }

  ghost predicate ReadingAllows(catalog: Catalog, key: Key, selected: Option<seq<string>>, part: Part) {
    && key in catalog.resources && "read" in catalog.resources[key].operations
    && RequestAllows(catalog, Reading(catalog, key, selected), None, part)
  }

  ghost predicate SomeReading(catalog: Catalog, keys: seq<Key>, selected: Option<seq<string>>, part: Part) {
    exists key :: key in keys && ReadingAllows(catalog, key, selected, part)
  }

  lemma ReadingsAllow(catalog: Catalog, keys: seq<Key>, selected: Option<seq<string>>, part: Part)
    requires forall key :: key in keys ==> key in catalog.resources && "read" in catalog.resources[key].operations
    requires ResolveEach(catalog, ReadRequests(catalog, keys, selected), None).Some?
    ensures var grant := ResolveEach(catalog, ReadRequests(catalog, keys, selected), None).value;
            grant.permissionScope == "" && (Allows(grant, part) <==> SomeReading(catalog, keys, selected, part))
    ensures forall key :: key in keys ==> Operates(catalog, Reading(catalog, key, selected))
  {
    hide ResolveEach, RequestAllows, Operates, ReadRequests, Allows;
    EachIsTheUnion(catalog, ReadRequests(catalog, keys, selected), None, part);
    forall request ensures request in ReadRequests(catalog, keys, selected) <==>
                                  exists key :: key in keys && request == Reading(catalog, key, selected) {
      ReadingsListed(catalog, keys, selected, request);
    }
    forall key | key in keys ensures Reading(catalog, key, selected) in ReadRequests(catalog, keys, selected) {
    }
  }

  lemma SelectedAreRegistered(catalog: Catalog, scope: string, keys: seq<Key>, selected: Option<seq<string>>)
    requires Sound(catalog) && Selectable(catalog, scope, keys, selected)
    ensures forall key :: key in keys ==> key in catalog.resources && "read" in catalog.resources[key].operations
    ensures selected.Some? ==> forall feature :: feature in selected.value ==> feature in catalog.buttons
  {
    hide Sound;
    if selected.Some? {
      forall feature | feature in selected.value ensures feature in catalog.buttons {
        var i :| 0 <= i < |selected.value| && selected.value[i] == feature;
        assert AllowedBy(catalog, keys, selected.value[i]);
        var key :| key in keys && key in catalog.resources && "read" in catalog.resources[key].operations
                   && feature in catalog.resources[key].operations["read"].buttonKeys;
        RegisteredReading(catalog, key, feature);
      }
    }
  }

  lemma RenamedReadingsAllow(edit: Edit, keys: seq<Key>, selected: Option<seq<string>>, part: Part)
    requires Keeps(edit, part) && Sound(edit.before)
    requires forall key :: key in keys ==>
                           key in edit.before.resources && "read" in edit.before.resources[key].operations
    requires forall key :: key in keys ==> Operates(edit.before, Reading(edit.before, key, selected))
    requires selected.Some? ==> forall feature :: feature in selected.value ==> feature in edit.before.buttons
    ensures SomeReading(edit.after, MigratedKeys(edit.resources, keys), MigratedList(edit.features, selected), part)
       <==> SomeReading(edit.before, keys, selected, part)
  {
    var renamed, features := MigratedKeys(edit.resources, keys), MigratedList(edit.features, selected);
    hide Keeps, Sound, Reading, Operates, ReadingAllows, MigratedKeys, MigratedList;
    forall i | 0 <= i < |keys|
      ensures ReadingAllows(edit.after, renamed[i], features, part) <==>
              ReadingAllows(edit.before, keys[i], selected, part)
    {
      assert keys[i] in keys;
      RenamedReadingAllows(edit, keys[i], selected, part);
    }
    SameSomewhere(renamed, keys, key => ReadingAllows(edit.after, key, features, part),
                  key => ReadingAllows(edit.before, key, selected, part));
  }

  lemma RenamedDefaultAllows(edit: Edit, word: string, before: Config, after: Config, part: Part)
    requires Keeps(edit, part) && Sound(edit.before)
    requires UpToDate(edit.before, word, before) && ConfigBindings(before).None? && before.builtin == "default" &&
             before.resourceKeys.Some?
    requires UpToDate(edit.after, word, after) && ConfigBindings(after).None? && after.builtin == "default"
    requires after.resourceKeys == MigratedList(edit.resources, before.resourceKeys)
    requires after.featureKeys == MigratedList(edit.features, before.featureKeys)
    ensures ConfigAllows(after, part) <==> ConfigAllows(before, part)
    ensures after.permissionScope == before.permissionScope == ""
  {
    DefaultProjection(edit.before, word, before, part);
    DefaultProjection(edit.after, word, after, part);
    hide UpToDate, ConfigBindings, ResolveEach, ConfigAllows, Allows;
    SelectedAreRegistered(edit.before, Scope(word), before.resourceKeys.value, before.featureKeys);
    ReadingsAllow(edit.before, before.resourceKeys.value, before.featureKeys, part);
    forall key | key in after.resourceKeys.value
      ensures key in edit.after.resources && "read" in edit.after.resources[key].operations {
    }
    hide Selectable;
    ReadingsAllow(edit.after, after.resourceKeys.value, after.featureKeys, part);
    RenamedReadingsAllow(edit, before.resourceKeys.value, before.featureKeys, part);
  }

  /** What is stripped of pages and endpoints allows its listed scopes alone. */
  lemma StrippedAllows(config: Config, part: Part)
    ensures ConfigAllows(Stripped(config), part) <==> part.AScope? && ConfigAllows(config, part)
  {
  }

  lemma RenamedAllStaysBare(edit: Edit, before: Action, after: Action, selection: Config, part: Part)
    requires ConfigBindings(before.config).None? && before.config.builtin == "all"
    requires UpToDate(edit.before, before.word, before.config)
    requires selection == RenamedConfig(edit, before.config) && ReprojectedFrom(edit, after, selection)
    ensures ConfigAllows(after.config, part) <==> ConfigAllows(before.config, part)
    ensures after.config.builtin == "all"
  {
    hide ValidConfig, ConfigAllows;
    StrippedAllows(before.config, part);
    StrippedAllows(selection, part);
    SameProjectionAllows(before.config, Stripped(before.config), part);
    SameProjectionAllows(after.config, Stripped(selection), part);
    SelectionAllows(edit, before.config, part);
  }

  lemma SelectionAllows(edit: Edit, config: Config, part: Part)
    ensures ConfigAllows(RenamedConfig(edit, config), part) <==> ConfigAllows(config, part)
  {
  }

  /** The resolution behind what is stored beside explicit bindings. */
  lemma ExplicitResolution(catalog: Catalog, word: string, config: Config, selection: Config, part: Part)
    requires ConfigBindings(selection).Some? && ResolveStored(catalog, word, selection).Some?
    requires SameProjection(config, ResolveStored(catalog, word, selection).value)
    ensures selection.builtin != "all" && ResolveConfig(catalog, word, selection, None).Some?
    ensures var resolved := ResolveConfig(catalog, word, selection, None).value;
            && config.permissionScope == resolved.permissionScope
            && (ConfigAllows(config, part) <==>
                ConfigAllows(resolved, part) && (resolved.permissionScope == "*" ==> part.AScope?))
  {
    hide ResolveConfig, ConfigAllows;
    assert selection.builtin == "all" ==> ValidConfig(word, Stripped(selection));
    hide ValidConfig;
    var resolved := ResolveConfig(catalog, word, selection, None).value;
    StrippedAllows(resolved, part);
    SameProjectionAllows(config, ResolveStored(catalog, word, selection).value, part);
  }

  lemma RenamedExplicitAllows(edit: Edit, before: Action, after: Action, selection: Config, part: Part)
    requires Keeps(edit, part) && ConfigBindings(before.config).Some? &&
             UpToDate(edit.before, before.word, before.config)
    requires after.word == before.word && SelectionMigrated(edit, before.config, selection) &&
             ReprojectedFrom(edit, after, selection)
    ensures ConfigAllows(after.config, part) <==> ConfigAllows(before.config, part)
    ensures after.config.permissionScope == "*" <==> before.config.permissionScope == "*"
    ensures before.config.builtin != "all" && after.config.builtin != "all"
  {
    OnlyKeysChange(edit, before.config, selection);
    assert ConfigBindings(selection).Some? by {
      ExplicitResolution(edit.before, before.word, before.config, before.config, part);
      ResolvedKeyIsNamed(edit.before, before.word, before.config, None);
      RenamedConfigBindings(edit, before.config);
    }
    hide Keeps, SelectionMigrated, ConfigBindings, ConfigAllows, ResolveConfig, ResolveStored, RenamedConfig;
    ExplicitResolution(edit.before, before.word, before.config, before.config, part);
    ExplicitResolution(edit.after, after.word, after.config, selection, part);
    RenamedConfigAllows(edit, before.word, before.config, selection, None, part);
  }

  /** The kinds of stored configuration. */
  lemma StoredKinds(catalog: Catalog, word: string, config: Config)
    requires UpToDate(catalog, word, config) && ConfigBindings(config).None?
    ensures config.builtin == "all" || (config.builtin == "default" && config.resourceKeys.Some?)
  {
  }

  lemma RenamedKind(edit: Edit, before: Config, selection: Config, after: Config)
    requires OnlyRenames(edit) && SelectionMigrated(edit, before, selection) && ConfigBindings(before).None?
    requires exists projected :: after == WithProjection(selection, projected)
    ensures ConfigBindings(after).None? && after.builtin == before.builtin
    ensures after.resourceKeys == MigratedList(edit.resources, before.resourceKeys)
    ensures after.featureKeys == MigratedList(edit.features, before.featureKeys)
  {
    OnlyKeysChange(edit, before, selection);
  }

  /** After a catalog edit that only renames, every stored action keeps the endpoints and scopes it had - and, where
      the catalog keeps its pages, every page, page entry and button - and stays restricted or unrestricted. */
  lemma RenamesKeepEveryGrant(edit: Edit, before: Action, after: Action, part: Part)
    requires Keeps(edit, part) && Sound(edit.before)
    requires UpToDate(edit.before, before.word, before.config) && RowRenewed(edit, before, after)
    ensures ConfigAllows(after.config, part) <==> ConfigAllows(before.config, part)
    ensures Unrestricted(after.config) <==> Unrestricted(before.config)
  {
    var selection :| SelectionMigrated(edit, before.config, selection) && ReprojectedFrom(edit, after, selection);
    assert OnlyRenames(edit);
    hide Keeps, OnlyRenames, Sound, SelectionMigrated, UpToDate, ConfigAllows;
    if ConfigBindings(before.config).Some? {
      RenamedExplicitAllows(edit, before, after, selection, part);
    } else {
      StoredKinds(edit.before, before.word, before.config);
      RenamedKind(edit, before.config, selection, after.config);
      OnlyKeysChange(edit, before.config, selection);
      if before.config.builtin == "all" {
        RenamedAllStaysBare(edit, before, after, selection, part);
      } else {
        RenamedDefaultAllows(edit, before.word, before.config, after.config, part);
      }
    }
  }
}
