/**
What a default selection allows, told by features and pages, and what of it
stays when resources become directories.
*/
module DefaultMeaning {
  import opened Options
  import opened ResourceCatalog
  import opened CatalogValidation
  import opened Grants
  import opened ActionConfig
  import opened ActionMigration
  import opened ActionTable
  import opened GrantMeaning
  import opened DefaultMigration
  import RenameMeaning

  predicate Owned(catalog: Catalog, page: string) {
    Owners(catalog, page) != {}
  }

  /** What selecting one feature for reading allows. */
  ghost predicate FeatureAllows(catalog: Catalog, name: string, part: Part) {
    name in catalog.buttons
    && var feature := catalog.buttons[name];
       match part
       case AnEndpoint(endpoint) => Brings(feature, None, endpoint)
       case AScope(scope) => ScopedAs(feature, "read", scope)
       case AButton(page, button) => Owned(catalog, page) && button in feature.buttons && ButtonOf(page, button)
       case AnEntry(page) => Owned(catalog, page) && page in feature.entryKeys
       case APage(page) =>
         && Owned(catalog, page)
         && (page in feature.entryKeys || exists button :: button in feature.buttons && ButtonOf(page, button))
  }

  /** What reading a resource allows without any feature. */
  predicate KeyAllows(catalog: Catalog, key: Key, part: Part) {
    && key in catalog.resources && "read" in catalog.resources[key].operations
    && match part
       case APage(page) => || page in catalog.resources[key].entries
                           || (Owned(catalog, page) && page in catalog.resources[key].operations["read"].entryKeys)
       case AnEntry(page) => Owned(catalog, page) && page in catalog.resources[key].operations["read"].entryKeys
       case AnEndpoint(_) => false
       case AButton(_, _) => false
       case AScope(_) => false
  }

  ghost predicate SelectedFeatureAllows(catalog: Catalog, keys: seq<Key>, selected: Option<seq<string>>, part: Part) {
    exists key, feature :: key in keys && ReadFeature(catalog, key, feature) && IsSelected(selected, feature) &&
                           FeatureAllows(catalog, feature, part)
  }

  lemma OwnEntryIsOwned(catalog: Catalog, key: Key, page: string)
    requires key in catalog.resources && page in catalog.resources[key].entries
    ensures Owned(catalog, page)
  {
    assert key in Owners(catalog, page);
  }

  ghost predicate SomeAllows(catalog: Catalog, features: seq<string>, part: Part) {
    exists feature :: feature in features && FeatureAllows(catalog, feature, part)
  }

  /** What one operation allows, split into its features and what is left without them. */
  lemma OperationMeans(catalog: Catalog, key: Key, features: seq<string>, part: Part)
    requires key in catalog.resources && "read" in catalog.resources[key].operations
    requires Operable(catalog, key, "read", Some(features))
    ensures OperationAllows(catalog, key, "read", Some(features), None, part)
       <==> (KeyAllows(catalog, key, part) || SomeAllows(catalog, features, part))
  {
    hide Operable, Owners;
    var binding := catalog.resources[key].operations["read"];
    if part.APage? || part.AnEntry? || part.AButton? {
      PageMeans(catalog, key, binding, features, part.page);
    }
  }

  lemma SameChoice(catalog: Catalog, key: Key, selected: Option<seq<string>>, part: Part)
    requires key in catalog.resources && "read" in catalog.resources[key].operations
    requires Operates(catalog, RenameMeaning.Reading(catalog, key, selected))
    ensures var features := Chosen(catalog.resources[key].operations["read"],
                                   RenameMeaning.Reading(catalog, key, selected).selected);
            && Operable(catalog, key, "read", Some(features))
            && (RenameMeaning.ReadingAllows(catalog, key, selected, part) <==>
                  OperationAllows(catalog, key, "read", Some(features), None, part))
  {
    hide Allows;
    var request := RenameMeaning.Reading(catalog, key, selected);
    OperationAllowsExactly(catalog, key, "read", request.selected, None, part);
  }

  lemma ChoiceMeans(catalog: Catalog, key: Key, selected: Option<seq<string>>, feature: string)
    requires key in catalog.resources && "read" in catalog.resources[key].operations
    ensures feature in Chosen(catalog.resources[key].operations["read"],
                              RenameMeaning.Reading(catalog, key, selected).selected)
       <==> ReadFeature(catalog, key, feature) && IsSelected(selected, feature)
  {
  }

  /** One reading allows what the resource and its chosen features allow. */
  lemma ReadingMeans(catalog: Catalog, key: Key, selected: Option<seq<string>>, part: Part)
    requires key in catalog.resources && "read" in catalog.resources[key].operations
    requires Operates(catalog, RenameMeaning.Reading(catalog, key, selected))
    ensures RenameMeaning.ReadingAllows(catalog, key, selected, part)
       <==> || KeyAllows(catalog, key, part)
            || exists feature :: ReadFeature(catalog, key, feature) && IsSelected(selected, feature) &&
                                 FeatureAllows(catalog, feature, part)
  {
    SameChoice(catalog, key, selected, part);
    hide Operates, Operable, RenameMeaning.ReadingAllows, OperationAllows, KeyAllows, FeatureAllows;
    hide Chosen, RenameMeaning.Reading;
    var features := Chosen(catalog.resources[key].operations["read"],
                           RenameMeaning.Reading(catalog, key, selected).selected);
    OperationMeans(catalog, key, features, part);
    forall feature ensures feature in features <==> ReadFeature(catalog, key, feature) &&
                                                    IsSelected(selected, feature) {
      ChoiceMeans(catalog, key, selected, feature);
    }
  }

  lemma PageMeans(catalog: Catalog, key: Key, binding: OperationBinding, features: seq<string>, page: string)
    requires key in catalog.resources
    ensures Shown(catalog, key, binding, features, page) ==> Owned(catalog, page)
  {
    if page in catalog.resources[key].entries {
      OwnEntryIsOwned(catalog, key, page);
    }
  }

  /** A default selection allows exactly what its keys and their selected registered features allow. */
  lemma DefaultAllowsExactly(catalog: Catalog, scope: string, keys: seq<Key>, selected: Option<seq<string>>,
                             part: Part)
    requires ResolveResources(catalog, scope, keys, selected, None).Some?
    ensures Allows(ResolveResources(catalog, scope, keys, selected, None).value, part)
       <==> || (exists key :: key in keys && KeyAllows(catalog, key, part))
            || SelectedFeatureAllows(catalog, keys, selected, part)
  {
    RenameMeaning.ReadingsAllow(catalog, keys, selected, part);
    hide Allows, ResolveEach, RenameMeaning.ReadingAllows, Operates, KeyAllows, FeatureAllows, ReadFeature, IsSelected;
    hide RenameMeaning.Reading;
    forall key | key in keys
      ensures RenameMeaning.ReadingAllows(catalog, key, selected, part)
         <==> || KeyAllows(catalog, key, part)
              || exists feature :: ReadFeature(catalog, key, feature) && IsSelected(selected, feature) &&
                                   FeatureAllows(catalog, feature, part)
    {
      ReadingMeans(catalog, key, selected, part);
    }
  }

  /** A default selection that a catalog edit converts because one of its resources became a directory. */
  ghost predicate Converted(edit: Edit, config: Config, result: Config) {
    && ValidEdit(edit) && Sound(edit.after)
    && IsDefault(config) && SelectionMigrated(edit, config, result)
    && SomeKeyBecameDirectory(edit, config.resourceKeys.value)
  }

  function DefaultGrant(catalog: Catalog, scope: string, config: Config): Option<Grant> {
    if config.resourceKeys.None? then None
    else ResolveResources(catalog, scope, config.resourceKeys.value, config.featureKeys, None)
  }

  /** What the due keys and the due features allow in the new catalog. */
  ghost predicate DueAllows(edit: Edit, config: Config, part: Part)
    requires IsDefault(config)
  {
    var keys, selected := config.resourceKeys.value, config.featureKeys;
    || (exists key :: KeyDue(edit, keys, key) && KeyAllows(edit.after, key, part))
    || (exists feature :: FeatureDue(edit, keys, selected, feature) && FeatureAllows(edit.after, feature, part))
  }

  /** After a conversion, the resolution allows exactly what the due keys and the due features allow. */
  lemma ConvertedDefaultAllows(edit: Edit, scope: string, config: Config, result: Config, part: Part)
    requires Converted(edit, config, result) && DefaultGrant(edit.after, scope, result).Some?
    ensures Allows(DefaultGrant(edit.after, scope, result).value, part) <==> DueAllows(edit, config, part)
  {
    hide KeyDue, FeatureDue, SelectionMigrated, Sound, ValidEdit, SomeKeyBecameDirectory, KeyAllows, FeatureAllows;
    hide Converted, ResolveResources, Allows;
    ConvertedSelection(edit, config, result);
    var keys, selected := config.resourceKeys.value, config.featureKeys;
    DefaultAllowsExactly(edit.after, scope, result.resourceKeys.value, result.featureKeys, part);
    if feature :| FeatureDue(edit, keys, selected, feature) && FeatureAllows(edit.after, feature, part) {
      var to := DueFeatureIsRead(edit, keys, selected, feature);
      assert IsSelected(result.featureKeys, feature);
      assert to in result.resourceKeys.value;
    }
  }

  lemma ConvertedSelection(edit: Edit, config: Config, result: Config)
    requires Converted(edit, config, result)
    ensures IsDefault(config) && config.resourceKeys.Some?
    ensures result.resourceKeys.Some? && result.featureKeys.Some?
    ensures forall key :: key in result.resourceKeys.value <==> KeyDue(edit, config.resourceKeys.value, key)
    ensures forall feature :: feature in result.featureKeys.value <==>
                              FeatureDue(edit, config.resourceKeys.value, config.featureKeys, feature)
  {
    hide KeyDue, FeatureDue, SelectionMigrated, Sound, ValidEdit, SomeKeyBecameDirectory;
    DefaultMigrated(edit, config, result, "", "");
    forall key ensures key in result.resourceKeys.value <==> KeyDue(edit, config.resourceKeys.value, key) {
      DefaultMigrated(edit, config, result, key, "");
    }
    forall feature ensures feature in result.featureKeys.value <==>
                           FeatureDue(edit, config.resourceKeys.value, config.featureKeys, feature) {
      DefaultMigrated(edit, config, result, "", feature);
    }
  }

  /** A due feature belongs to a due key. */
  lemma DueFeatureIsRead(edit: Edit, keys: seq<Key>, selected: Option<seq<string>>, feature: string) returns (to: Key)
    requires FeatureDue(edit, keys, selected, feature)
    ensures KeyDue(edit, keys, to) && ReadFeature(edit.after, to, feature)
  {
    var key;
    key, to :| key in keys && FeatureDueAt(edit, selected, key, to, feature);
  }

  /** The same endpoints and buttons, and every page that had an owner has one. */
  ghost predicate StillAllows(edit: Edit, feature: string, renamed: string, part: Part) {
    && feature in edit.before.buttons && renamed in edit.after.buttons
    && var before, after := edit.before.buttons[feature], edit.after.buttons[renamed];
       match part
       case AnEndpoint(_) => after.http == before.http && after.grpc == before.grpc
       case AScope(_) => after.permissionResource == before.permissionResource
       case AButton(page, _) => after.buttons == before.buttons &&
                                (Owned(edit.before, page) ==> Owned(edit.after, page))
       case AnEntry(page) => after.entryKeys == before.entryKeys &&
                             (Owned(edit.before, page) ==> Owned(edit.after, page))
       case APage(page) => after.entryKeys == before.entryKeys && after.buttons == before.buttons &&
                           (Owned(edit.before, page) ==> Owned(edit.after, page))
  }

  /**
  Where some resource became a directory, every other resource of the default
  selection keeps what its selected features allowed, as far as the new
  catalog registers them for reading with the same parts.
  */
  lemma KeptResourceKeepsItsParts(edit: Edit, scope: string, config: Config, result: Config, key: Key,
                                  feature: string, part: Part)
    requires Converted(edit, config, result) && DefaultGrant(edit.after, scope, result).Some?
    requires key in config.resourceKeys.value && !BecameDirectory(edit, key)
    requires IsSelected(config.featureKeys, feature) && FeatureAllows(edit.before, feature, part)
    requires var renamed := MigratedKey(edit.features, feature);
             && ReadFeature(edit.after, MigratedKey(edit.resources, key), renamed)
             && StillAllows(edit, feature, renamed, part)
    ensures Allows(DefaultGrant(edit.after, scope, result).value, part)
  {
    hide *;
    ConvertedSelection(edit, config, result);
    KeptFeatureIsDue(edit, config.resourceKeys.value, config.featureKeys, key, feature);
    StillAllowed(edit, feature, MigratedKey(edit.features, feature), part);
    ConvertedDefaultAllows(edit, scope, config, result, part);
    DueFeatureAllows(edit, config, MigratedKey(edit.features, feature), part);
  }

  lemma KeptFeatureIsDue(edit: Edit, keys: seq<Key>, selected: Option<seq<string>>, key: Key, feature: string)
    requires key in keys && !BecameDirectory(edit, key) && IsSelected(selected, feature)
    requires ReadFeature(edit.after, MigratedKey(edit.resources, key), MigratedKey(edit.features, feature))
    ensures FeatureDue(edit, keys, selected, MigratedKey(edit.features, feature))
  {
    var to, renamed := MigratedKey(edit.resources, key), MigratedKey(edit.features, feature);
    assert FeatureDueAt(edit, selected, key, to, renamed);
  }

  lemma StillAllowed(edit: Edit, feature: string, renamed: string, part: Part)
    requires FeatureAllows(edit.before, feature, part) && StillAllows(edit, feature, renamed, part)
    ensures FeatureAllows(edit.after, renamed, part)
  {
    hide Owned;
  }

  lemma DueFeatureAllows(edit: Edit, config: Config, feature: string, part: Part)
    requires IsDefault(config) && FeatureAllows(edit.after, feature, part)
    requires FeatureDue(edit, config.resourceKeys.value, config.featureKeys, feature)
    ensures DueAllows(edit, config, part)
  {
    hide FeatureDue, FeatureAllows;
  }

  // ----- The converted selection is valid -----

  /** Every resource of the old selection that stays one still offers reading under its new name. */
  ghost predicate KeptAreReadable(edit: Edit, keys: seq<Key>) {
    forall key :: key in keys && !BecameDirectory(edit, key) ==>
      Offers(edit.after, MigratedKey(edit.resources, key), "read")
  }

  lemma KnownKeyHasColon(catalog: Catalog, key: Key)
    requires Sound(catalog) && key in catalog.resources
    ensures ':' in key
  {
    assert NodeOk(catalog, key);
    KeyHasColon(key, catalog.resources[key]);
  }

  lemma MigratedStaysInScope(edit: Edit, key: Key, scope: string)
    requires ValidEdit(edit) && Sound(edit.after) && ':' !in scope && InScope(key, scope)
    requires MigratedKey(edit.resources, key) in edit.after.resources
    ensures InScope(MigratedKey(edit.resources, key), scope)
    ensures Scope(MigratedKey(edit.resources, key)) == scope
  {
    hide Sound;
    var to := MigratedKey(edit.resources, key);
    assert key in edit.resources ==>
           ValidRename(edit.resources, edit.before.resources.Keys, edit.after.resources.Keys, key);
    KnownKeyHasColon(edit.after, to);
    RenameMeaning.ScopedKey(key, scope);
    RenameMeaning.ScopedKey(to, scope);
  }

  lemma DueKeyIsReadable(edit: Edit, scope: string, keys: seq<Key>, to: Key)
    requires ValidEdit(edit) && Sound(edit.after) && ':' !in scope
    requires KeptAreReadable(edit, keys) && forall key :: key in keys ==> InScope(key, scope)
    requires KeyDue(edit, keys, to)
    ensures Offers(edit.after, to, "read") && InScope(to, scope)
  {
    hide Sound, ValidEdit;
    var key :| key in keys && (KeptAs(edit, key, to) || ReadBelow(edit, key, to));
    MigratedStaysInScope(edit, key, scope);
    if ReadBelow(edit, key, to) {
      var owner := MigratedKey(edit.resources, key);
      var usable := KeysInScope(edit.after, Scope(owner));
      var trail :| Connects(edit.after, usable, "read", {}, trail, owner, to);
      assert trail[|trail| - 1] in usable;
    }
  }

  /** Keys of the scope that can be read, and features they register, each listed once. */
  ghost predicate SelectsOnce(catalog: Catalog, scope: string, keys: seq<Key>, selected: Option<seq<string>>) {
    && Unrepeated(keys)
    && (forall key :: key in keys ==> Offers(catalog, key, "read") && InScope(key, scope))
    && (selected.Some? ==>
          && Unrepeated(selected.value)
          && forall feature :: feature in selected.value ==>
               exists key :: key in keys && ReadFeature(catalog, key, feature))
  }

  lemma AllowedMeans(catalog: Catalog, keys: seq<Key>, feature: string)
    ensures AllowedBy(catalog, keys, feature) <==> exists key :: key in keys && ReadFeature(catalog, key, feature)
  {
  }

  lemma SelectableMeans(catalog: Catalog, scope: string, keys: seq<Key>, selected: Option<seq<string>>)
    ensures Selectable(catalog, scope, keys, selected) <==> SelectsOnce(catalog, scope, keys, selected)
  {
    hide InScope, ReadFeature, AllowedBy;
    forall feature ensures AllowedBy(catalog, keys, feature) <==>
                           exists key :: key in keys && ReadFeature(catalog, key, feature) {
      AllowedMeans(catalog, keys, feature);
    }
    assert forall i :: 0 <= i < |keys| ==> keys[i] in keys;
    assert selected.Some? ==> forall i :: 0 <= i < |selected.value| ==> selected.value[i] in selected.value;
  }

  lemma ReadingsResolve(catalog: Catalog, keys: seq<Key>, selected: Option<seq<string>>)
    requires Sound(catalog)
    requires forall key :: key in keys ==> key in catalog.resources && "read" in catalog.resources[key].operations
    requires forall key :: key in keys ==> Offers(catalog, key, "read")
    ensures ResolveEach(catalog, ReadRequests(catalog, keys, selected), None).Some?
  {
    hide Sound, ResolveEach, Operates, RenameMeaning.Reading;
    var requests := ReadRequests(catalog, keys, selected);
    hide ReadRequests;
    forall request | request in requests ensures Operates(catalog, request) {
      RenameMeaning.ReadingsListed(catalog, keys, selected, request);
      var key :| key in keys && request == RenameMeaning.Reading(catalog, key, selected);
      ReadingOperates(catalog, key, selected);
    }
    EachIsTheUnion(catalog, requests, None, APage(""));
  }

  lemma ReadingOperates(catalog: Catalog, key: Key, selected: Option<seq<string>>)
    requires Sound(catalog) && Offers(catalog, key, "read")
    ensures Operates(catalog, RenameMeaning.Reading(catalog, key, selected))
  {
    hide Sound;
    var registered := catalog.resources[key].operations["read"].buttonKeys;
    RegisteredOnce(catalog, key);
    if selected.Some? {
      KeptOnce(feature => feature in selected.value, registered);
    }
    var chosen := Chosen(catalog.resources[key].operations["read"],
                         RenameMeaning.Reading(catalog, key, selected).selected);
    forall feature | feature in chosen ensures feature in catalog.buttons {
      RenameMeaning.RegisteredReading(catalog, key, feature);
    }
  }

  /** On a valid catalog a default selection resolves exactly if its keys and features can be selected. */
  lemma DefaultResolvesExactly(catalog: Catalog, scope: string, keys: seq<Key>, selected: Option<seq<string>>)
    requires Sound(catalog)
    ensures ResolveResources(catalog, scope, keys, selected, None).Some? <==>
            SelectsOnce(catalog, scope, keys, selected)
  {
    hide Sound, Selectable, ResolveEach;
    SelectableMeans(catalog, scope, keys, selected);
    if SelectsOnce(catalog, scope, keys, selected) {
      OffersReading(catalog, keys);
      hide SelectsOnce, ReadRequests;
      ReadingsResolve(catalog, keys, selected);
    }
  }

  lemma OffersReading(catalog: Catalog, keys: seq<Key>)
    requires forall key :: key in keys ==> Offers(catalog, key, "read")
    ensures forall key :: key in keys ==> key in catalog.resources && "read" in catalog.resources[key].operations
  {
  }

  /** A conversion strands no default selection whose other resources can still be read. */
  lemma ConvertedDefaultResolves(edit: Edit, scope: string, config: Config, result: Config)
    requires Converted(edit, config, result) && ':' !in scope
    requires forall key :: key in config.resourceKeys.value ==> InScope(key, scope)
    requires KeptAreReadable(edit, config.resourceKeys.value)
    ensures DefaultGrant(edit.after, scope, result).Some?
  {
    hide KeptAreReadable, ResolveResources, InScope, Sound, ValidEdit, SelectionMigrated, KeyDue, FeatureDue, Offers;
    hide SomeKeyBecameDirectory;
    ConvertedSelection(edit, config, result);
    DefaultMigrated(edit, config, result, "", "");
    var keys, selected := config.resourceKeys.value, config.featureKeys;
    forall key | key in result.resourceKeys.value ensures Offers(edit.after, key, "read") && InScope(key, scope) {
      DueKeyIsReadable(edit, scope, keys, key);
    }
    forall feature | feature in result.featureKeys.value
      ensures exists key :: key in result.resourceKeys.value && ReadFeature(edit.after, key, feature)
    {
      var to := DueFeatureIsRead(edit, keys, selected, feature);
    }
    DefaultResolvesExactly(edit.after, scope, result.resourceKeys.value, result.featureKeys);
  }

  /** An up-to-date default action allows what its selection resolves to. */
  lemma StoredDefaultAllows(catalog: Catalog, word: string, config: Config, part: Part)
    requires UpToDate(catalog, word, config) && IsDefault(config) && ConfigBindings(config).None?
    ensures DefaultGrant(catalog, Scope(word), config).Some?
    ensures ConfigAllows(config, part) <==> Allows(DefaultGrant(catalog, Scope(word), config).value, part)
  {
    DefaultProjection(catalog, word, config, part);
    hide UpToDate, ConfigAllows, Allows;
    RenameMeaning.ReadingsAllow(catalog, config.resourceKeys.value, config.featureKeys, part);
  }

  lemma DefaultShapeStays(edit: Edit, config: Config, selection: Config)
    requires SelectionMigrated(edit, config, selection) && IsDefault(config) && ConfigBindings(config).None?
    ensures IsDefault(selection) && ConfigBindings(selection).None?
  {
    var listed, converted :| BindingsConverted(edit, config, listed) && DefaultsConverted(edit, listed, converted)
                             && selection == RenamedConfig(edit, converted);
    assert listed == config;
  }

  /** The stored action after the edit: its pages, buttons, endpoints and scopes are exactly the due ones. */
  lemma ConvertedRowAllows(edit: Edit, before: Action, after: Action, part: Part)
    requires ValidEdit(edit) && Sound(edit.after) && RowRenewed(edit, before, after)
    requires IsDefault(before.config) && ConfigBindings(before.config).None?
    requires SomeKeyBecameDirectory(edit, before.config.resourceKeys.value)
    ensures ConfigAllows(after.config, part) <==> DueAllows(edit, before.config, part)
  {
    var selection :| SelectionMigrated(edit, before.config, selection) && ReprojectedFrom(edit, after, selection);
    assert Converted(edit, before.config, selection);
    DefaultShapeStays(edit, before.config, selection);
    hide SelectionMigrated, Sound, ValidEdit, UpToDate, ResolveStored, DueAllows, ConfigAllows, Allows, Converted;
    StoredDefaultAllows(edit.after, after.word, after.config, part);
    ConvertedDefaultAllows(edit, Scope(after.word), before.config, selection, part);
  }
}
