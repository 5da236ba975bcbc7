/**
Stored selections follow a catalog edit: resources that became directories are
expanded, renamed keys are replaced.
*/
module ActionMigration {
  import opened Options
  import opened ResourceCatalog
  import opened BindingMerge
  import opened DirectoryBindings
  import opened CatalogValidation
  import opened Words
  import opened ActionConfig
  import Ordering

  type Renames = map<string, string>

  function MigratedKey(renames: Renames, key: string): string {
    if key in renames && renames[key] != "" then renames[key] else key
  }

  predicate ValidRename(renames: Renames, previous: set<string>, current: set<string>, from: string)
    requires from in renames
  {
    var to := renames[from];
    && from in previous
    && from !in current
    && to in current
    && from != to
    && Scope(from) == Scope(to)
  }

  predicate ValidRenames(renames: Renames, previous: set<string>, current: set<string>) {
    forall from :: from in renames ==> ValidRename(renames, previous, current, from)
  }

  /** A registered key is never renamed away, so a second pass finds nothing to do. */
  lemma RegisteredKeyStays(renames: Renames, previous: set<string>, current: set<string>, key: string)
    requires ValidRenames(renames, previous, current) && key in current
    ensures MigratedKey(renames, key) == key
  {
  }

  /** A renamed key is gone from the new catalog and found in it under its new name; every other key stays. */
  lemma RenamedKeyIsFound(renames: Renames, previous: set<string>, current: set<string>, key: string)
    requires ValidRenames(renames, previous, current) && "" !in current
    ensures key in renames ==>
              key !in current && MigratedKey(renames, key) == renames[key] && renames[key] in current
    ensures key !in renames ==> MigratedKey(renames, key) == key
  {
    assert key in renames ==> ValidRename(renames, previous, current, key);
  }

  lemma RenameTwiceIsOnce(renames: Renames, previous: set<string>, current: set<string>, key: string)
    requires ValidRenames(renames, previous, current)
    ensures MigratedKey(renames, MigratedKey(renames, key)) == MigratedKey(renames, key)
  {
    if key in renames && renames[key] != "" {
      RegisteredKeyStays(renames, previous, current, renames[key]);
    }
  }

  function MigratedKeys(renames: Renames, keys: seq<string>): (migrated: seq<string>)
    ensures |migrated| == |keys|
    ensures forall i :: 0 <= i < |keys| ==> migrated[i] == MigratedKey(renames, keys[i])
  {
    seq(|keys|, i requires 0 <= i < |keys| => MigratedKey(renames, keys[i]))
  }

  function MigratedList(renames: Renames, keys: Option<seq<string>>): Option<seq<string>> {
    if keys.None? then None else Some(MigratedKeys(renames, keys.value))
  }

  datatype Edit = Edit(before: Catalog, after: Catalog, resources: Renames, features: Renames)

  predicate ValidEdit(edit: Edit) {
    && ValidRenames(edit.resources, edit.before.resources.Keys, edit.after.resources.Keys)
    && ValidRenames(edit.features, edit.before.buttons.Keys, edit.after.buttons.Keys)
  }

  predicate BecameDirectory(edit: Edit, key: Key) {
    && key in edit.before.resources
    && edit.before.resources[key].kind == "resource"
    && MigratedKey(edit.resources, key) in edit.after.resources
    && edit.after.resources[MigratedKey(edit.resources, key)].kind == "directory"
  }

  function RenamedBinding(edit: Edit, binding: ResourceBinding): ResourceBinding {
    ResourceBinding(MigratedKey(edit.resources, binding.resourceKey), binding.operation,
                    MigratedList(edit.features, binding.featureKeys))
  }

  function RenamedBindings(edit: Edit, bindings: seq<ResourceBinding>): (renamed: seq<ResourceBinding>)
    ensures |renamed| == |bindings|
    ensures forall i :: 0 <= i < |bindings| ==> renamed[i] == RenamedBinding(edit, bindings[i])
  {
    seq(|bindings|, i requires 0 <= i < |bindings| => RenamedBinding(edit, bindings[i]))
  }

  /** The pass over every stored key, whatever field it sits in. */
  function RenamedConfig(edit: Edit, config: Config): Config {
    config.(bindings := if config.bindings.None? then None else Some(RenamedBindings(edit, config.bindings.value)),
            resourceKey := if config.resourceKey == "" then "" else MigratedKey(edit.resources, config.resourceKey),
            resourceKeys := MigratedList(edit.resources, config.resourceKeys),
            featureKeys := MigratedList(edit.features, config.featureKeys))
  }

  /** The pairs a binding turns into: its own under the new name, or everything below the new directory. */
  ghost predicate Contributes(edit: Edit, binding: ResourceBinding, result: ResourceBinding) {
    if BecameDirectory(edit, binding.resourceKey) then
      var owner := MigratedKey(edit.resources, binding.resourceKey);
      Expected(edit.after, Scope(owner), Allowed(binding.operation), {}, owner, result)
    else
      result == RenamedBinding(edit, binding)
  }

  ghost predicate ContributedBy(edit: Edit, bindings: seq<ResourceBinding>, n: nat, result: ResourceBinding)
    requires n <= |bindings|
  {
    exists i :: 0 <= i < n && Contributes(edit, bindings[i], result)
  }

  /** The contributions may be listed in any order; the merge joins equal identities. */
  ghost predicate Converts(edit: Edit, bindings: seq<ResourceBinding>, converted: seq<ResourceBinding>) {
    exists listed :: Lists(edit, bindings, listed) && Merged(listed, converted)
  }

  ghost predicate Lists(edit: Edit, bindings: seq<ResourceBinding>, listed: seq<ResourceBinding>) {
    forall result :: result in listed <==> ContributedBy(edit, bindings, |bindings|, result)
  }

  method ConvertBindings(edit: Edit, bindings: seq<ResourceBinding>) returns (converted: seq<ResourceBinding>)
    ensures Converts(edit, bindings, converted)
  {
    var migrated: seq<ResourceBinding> := [];
    for n := 0 to |bindings|
      invariant forall result :: result in migrated <==> ContributedBy(edit, bindings, n, result)
    {
      var binding := bindings[n];
      ghost var before := migrated;
      var more: seq<ResourceBinding>;
      if BecameDirectory(edit, binding.resourceKey) {
        more := DirectoryResourceBindings(edit.after, MigratedKey(edit.resources, binding.resourceKey),
                                          binding.operation);
      } else {
        more := [RenamedBinding(edit, binding)];
      }
      migrated := migrated + more;
      forall result {
        OneMoreContribution(edit, bindings, n, result);
      }
    }
    assert Lists(edit, bindings, migrated);
    converted := MergeBindings(migrated);
  }

  lemma OneMoreContribution(edit: Edit, bindings: seq<ResourceBinding>, n: nat, result: ResourceBinding)
    requires n < |bindings|
    ensures ContributedBy(edit, bindings, n + 1, result)
       <==> (ContributedBy(edit, bindings, n, result) || Contributes(edit, bindings[n], result))
  {
  }

  /** The default selection reads each resource with those registered features that were selected under any old name. */
  function KeptFeatures(edit: Edit, target: Key, selected: Option<seq<string>>): seq<string> {
    if target !in edit.after.resources || "read" !in edit.after.resources[target].operations then []
    else
      var registered := edit.after.resources[target].operations["read"].buttonKeys;
      Ordering.Keep(feature => selected.None? || feature in MigratedKeys(edit.features, selected.value), registered)
  }

  function LegacyOrListed(config: Config): Option<seq<ResourceBinding>> {
    if config.bindings.Some? then config.bindings
    else if config.resourceKey != ""
        then Some([ResourceBinding(config.resourceKey, config.operation, config.featureKeys)])
    else None
  }

  predicate SomeBecameDirectory(edit: Edit, bindings: seq<ResourceBinding>) {
    exists i :: 0 <= i < |bindings| && BecameDirectory(edit, bindings[i].resourceKey)
  }

  predicate SomeKeyBecameDirectory(edit: Edit, keys: seq<Key>) {
    exists i :: 0 <= i < |keys| && BecameDirectory(edit, keys[i])
  }

  /** Bindings are replaced together, and a legacy binding becomes a list, only when one of them must be expanded. */
  ghost predicate BindingsConverted(edit: Edit, config: Config, result: Config) {
    var bindings := LegacyOrListed(config);
    if bindings.Some? && SomeBecameDirectory(edit, bindings.value) then
      && result.bindings.Some?
      && Converts(edit, bindings.value, result.bindings.value)
      && result == if config.bindings.Some? then config.(bindings := result.bindings)
                   else config.(bindings := result.bindings, resourceKey := "", operation := "", featureKeys := None)
    else
      result == config
  }

  /** The default selection as read bindings. */
  ghost predicate ReadContribution(edit: Edit, key: Key, selected: Option<seq<string>>, result: ResourceBinding) {
    var target := MigratedKey(edit.resources, key);
    if BecameDirectory(edit, key) then Expected(edit.after, Scope(target), Allowed("read"), {}, target, result)
    else result == ResourceBinding(target, "read", Some(KeptFeatures(edit, target, selected)))
  }

  ghost predicate ReadBy(edit: Edit, keys: seq<Key>, n: nat, selected: Option<seq<string>>, result: ResourceBinding)
    requires n <= |keys|
  {
    exists i :: 0 <= i < n && ReadContribution(edit, keys[i], selected, result)
  }

  ghost predicate ReadsMerged(edit: Edit, keys: seq<Key>, selected: Option<seq<string>>, merged: seq<ResourceBinding>) {
    exists listed :: Merged(listed, merged) &&
                     forall result :: result in listed <==> ReadBy(edit, keys, |keys|, selected, result)
  }

  function BindingKeys(bindings: seq<ResourceBinding>): seq<Key> {
    if bindings == [] then [] else BindingKeys(bindings[..|bindings| - 1]) + [bindings[|bindings| - 1].resourceKey]
  }

  function BindingFeatures(bindings: seq<ResourceBinding>): seq<string> {
    if bindings == [] then []
    else
      var last := bindings[|bindings| - 1];
      BindingFeatures(bindings[..|bindings| - 1]) + if last.featureKeys.None? then [] else last.featureKeys.value
  }

  ghost predicate DefaultsConverted(edit: Edit, config: Config, result: Config) {
    if config.builtin == "default" && config.resourceKeys.Some? &&
       SomeKeyBecameDirectory(edit, config.resourceKeys.value) then
      exists merged :: ReadsMerged(edit, config.resourceKeys.value, config.featureKeys, merged)
                       && result == config.(resourceKeys := Some(BindingKeys(merged)),
                                            featureKeys := Some(BindingFeatures(merged)))
    else
      result == config
  }

  method MergeReads(edit: Edit, keys: seq<Key>, selected: Option<seq<string>>) returns (merged: seq<ResourceBinding>)
    ensures ReadsMerged(edit, keys, selected, merged)
  {
    var migrated: seq<ResourceBinding> := [];
    for n := 0 to |keys|
      invariant forall result :: result in migrated <==> ReadBy(edit, keys, n, selected, result)
    {
      var target := MigratedKey(edit.resources, keys[n]);
      var more: seq<ResourceBinding>;
      if BecameDirectory(edit, keys[n]) {
        more := DirectoryResourceBindings(edit.after, target, "read");
      } else {
        more := [ResourceBinding(target, "read", Some(KeptFeatures(edit, target, selected)))];
      }
      migrated := migrated + more;
      forall result {
        OneMoreRead(edit, keys, n, selected, result);
      }
    }
    merged := MergeBindings(migrated);
  }

  lemma OneMoreRead(edit: Edit, keys: seq<Key>, n: nat, selected: Option<seq<string>>, result: ResourceBinding)
    requires n < |keys|
    ensures ReadBy(edit, keys, n + 1, selected, result)
       <==> (ReadBy(edit, keys, n, selected, result) || ReadContribution(edit, keys[n], selected, result))
  {
  }

  method ListKeysAndFeatures(bindings: seq<ResourceBinding>) returns (keys: seq<Key>, features: seq<string>)
    ensures keys == BindingKeys(bindings) && features == BindingFeatures(bindings)
  {
    keys, features := [], [];
    for n := 0 to |bindings|
      invariant keys == BindingKeys(bindings[..n]) && features == BindingFeatures(bindings[..n])
    {
      assert bindings[..n + 1][..n] == bindings[..n];
      keys := keys + [bindings[n].resourceKey];
      features := features + if bindings[n].featureKeys.None? then [] else bindings[n].featureKeys.value;
    }
    assert bindings[..|bindings|] == bindings;
  }

  method ConvertListed(edit: Edit, config: Config) returns (result: Config)
    ensures BindingsConverted(edit, config, result)
  {
    result := config;
    var bindings := LegacyOrListed(config);
    if bindings.Some? && SomeBecameDirectory(edit, bindings.value) {
      var converted := ConvertBindings(edit, bindings.value);
      result := result.(bindings := Some(converted));
      if config.bindings.None? {
        result := result.(resourceKey := "", operation := "", featureKeys := None);
      }
    }
  }

  method ConvertDefaults(edit: Edit, config: Config) returns (result: Config)
    ensures DefaultsConverted(edit, config, result)
  {
    result := config;
    if config.resourceKeys.Some? && config.builtin == "default" &&
       SomeKeyBecameDirectory(edit, config.resourceKeys.value) {
      var merged := MergeReads(edit, config.resourceKeys.value, config.featureKeys);
      var keys, features := ListKeysAndFeatures(merged);
      result := result.(resourceKeys := Some(keys), featureKeys := Some(features));
    }
  }

  /** The new selection: conversion first, then every key renamed. */
  ghost predicate SelectionMigrated(edit: Edit, config: Config, result: Config) {
    exists listed, converted :: BindingsConverted(edit, config, listed) && DefaultsConverted(edit, listed, converted)
                                && result == RenamedConfig(edit, converted)
  }

  method MigrateSelection(edit: Edit, config: Config) returns (result: Config)
    ensures SelectionMigrated(edit, config, result)
  {
    var listed := ConvertListed(edit, config);
    var converted := ConvertDefaults(edit, listed);
    result := RenamedConfig(edit, converted);
  }

  // The rename pass leaves converted bindings alone

  ghost predicate Settled(edit: Edit, binding: ResourceBinding) {
    RenamedBinding(edit, binding) == binding
  }

  lemma ContributionIsSettled(edit: Edit, binding: ResourceBinding, result: ResourceBinding)
    requires ValidEdit(edit) && Sound(edit.after)
    requires Contributes(edit, binding, result)
    ensures Settled(edit, result)
  {
    if BecameDirectory(edit, binding.resourceKey) {
      var key := result.resourceKey;
      assert NodeOk(edit.after, key);
      assert OperationOk(edit.after, key, edit.after.resources[key], result.operation);
      RegisteredKeyStays(edit.resources, edit.before.resources.Keys, edit.after.resources.Keys, key);
      RegisteredFeaturesStay(edit, result.featureKeys.value);
    } else {
      RenameTwiceIsOnce(edit.resources, edit.before.resources.Keys, edit.after.resources.Keys, binding.resourceKey);
      if binding.featureKeys.Some? {
        RenamedFeaturesStay(edit, binding.featureKeys.value);
      }
    }
  }

  lemma RegisteredFeaturesStay(edit: Edit, features: seq<string>)
    requires ValidEdit(edit)
    requires forall i :: 0 <= i < |features| ==> features[i] in edit.after.buttons
    ensures MigratedKeys(edit.features, features) == features
  {
    forall i | 0 <= i < |features| ensures MigratedKey(edit.features, features[i]) == features[i] {
      RegisteredKeyStays(edit.features, edit.before.buttons.Keys, edit.after.buttons.Keys, features[i]);
    }
  }

  lemma RenamedFeaturesStay(edit: Edit, features: seq<string>)
    requires ValidEdit(edit)
    ensures MigratedKeys(edit.features, MigratedKeys(edit.features, features)) == MigratedKeys(edit.features, features)
  {
    forall i | 0 <= i < |features|
      ensures MigratedKey(edit.features, MigratedKey(edit.features, features[i])) ==
          MigratedKey(edit.features, features[i])
    {
      RenameTwiceIsOnce(edit.features, edit.before.buttons.Keys, edit.after.buttons.Keys, features[i]);
    }
  }

  lemma MergedIsSettled(edit: Edit, listed: seq<ResourceBinding>, merged: seq<ResourceBinding>, i: nat)
    requires forall result :: result in listed ==> Settled(edit, result)
    requires Merged(listed, merged) && i < |merged|
    ensures Settled(edit, merged[i])
  {
    var entry := merged[i];
    assert Named(listed, entry);
    var k :| 0 <= k < |listed| && listed[k].resourceKey == entry.resourceKey && listed[k].operation == entry.operation;
    assert listed[k] in listed;
    if entry.featureKeys.Some? {
      var features := entry.featureKeys.value;
      CollectedMeansUnion(listed, Identity(entry));
      forall j | 0 <= j < |features| ensures MigratedKey(edit.features, features[j]) == features[j] {
        assert features[j] in features;
        var part :| Part(listed, Identity(entry), part) && part.featureKeys.Some? &&
                    features[j] in part.featureKeys.value;
        var at :| 0 <= at < |part.featureKeys.value| && part.featureKeys.value[at] == features[j];
        assert Settled(edit, part);
      }
      assert MigratedKeys(edit.features, features) == features;
    }
  }

  /** Renames are applied twice to converted bindings; the second time changes nothing. */
  lemma ConvertedIsSettled(edit: Edit, bindings: seq<ResourceBinding>, converted: seq<ResourceBinding>)
    requires ValidEdit(edit) && Sound(edit.after)
    requires Converts(edit, bindings, converted)
    ensures RenamedBindings(edit, converted) == converted
  {
    var listed :| Lists(edit, bindings, listed) && Merged(listed, converted);
    forall result | result in listed ensures Settled(edit, result) {
      var i :| 0 <= i < |bindings| && Contributes(edit, bindings[i], result);
      ContributionIsSettled(edit, bindings[i], result);
    }
    forall i | 0 <= i < |converted| ensures converted[i] == RenamedBinding(edit, converted[i]) {
      MergedIsSettled(edit, listed, converted, i);
    }
  }

  ghost predicate HasPair(bindings: seq<ResourceBinding>, key: Key, operation: string) {
    exists i :: 0 <= i < |bindings| && bindings[i].resourceKey == key && bindings[i].operation == operation
  }

  /** A pair is due when an old binding names it under the new keys or its new directory reaches it. */
  ghost predicate Due(edit: Edit, bindings: seq<ResourceBinding>, key: Key, operation: string) {
    exists i, result :: 0 <= i < |bindings| && Contributes(edit, bindings[i], result)
                        && result.resourceKey == key && result.operation == operation
  }

  /** The whole migration of explicit bindings, listed or in the single form, grants exactly the due pairs. */
  lemma MigratedPairs(edit: Edit, config: Config, result: Config, key: Key, operation: string)
    requires ValidEdit(edit) && Sound(edit.after) && SelectionMigrated(edit, config, result)
    requires LegacyOrListed(config).Some?
    requires forall i :: 0 <= i < |LegacyOrListed(config).value| ==>
                         ValidOperation(LegacyOrListed(config).value[i].operation)
    ensures ConfigBindings(result).Some?
    ensures HasPair(ConfigBindings(result).value, key, operation) <==>
            Due(edit, LegacyOrListed(config).value, key, operation)
  {
    var bindings := LegacyOrListed(config).value;
    var listed, converted :| BindingsConverted(edit, config, listed) && DefaultsConverted(edit, listed, converted)
                             && result == RenamedConfig(edit, converted);
    DefaultsLeaveBindings(edit, listed, converted);
    hide DefaultsConverted;
    if SomeBecameDirectory(edit, bindings) {
      ConvertedIsSettled(edit, bindings, listed.bindings.value);
      ConvertedPairs(edit, bindings, listed.bindings.value, key, operation);
    } else {
      RenamedPairs(edit, bindings, key, operation);
      SingleKeepsItsPair(edit, config, converted, key, operation);
    }
  }

  lemma DefaultsLeaveBindings(edit: Edit, config: Config, result: Config)
    requires DefaultsConverted(edit, config, result)
    ensures result.bindings == config.bindings && result.resourceKey == config.resourceKey &&
            result.operation == config.operation
  {
  }

  /** Renaming the single form gives the renamed pair, whatever happens to the feature list beside it. */
  lemma SingleKeepsItsPair(edit: Edit, config: Config, converted: Config, key: Key, operation: string)
    requires LegacyOrListed(config).Some?
    requires converted.bindings == config.bindings && converted.resourceKey == config.resourceKey &&
             converted.operation == config.operation
    ensures ConfigBindings(RenamedConfig(edit, converted)).Some?
    ensures HasPair(ConfigBindings(RenamedConfig(edit, converted)).value, key, operation)
       <==> HasPair(RenamedBindings(edit, LegacyOrListed(config).value), key, operation)
  {
    if config.bindings.None? {
      var renamed := RenamedBindings(edit, LegacyOrListed(config).value);
      var result := ConfigBindings(RenamedConfig(edit, converted)).value;
      assert |renamed| == |result| == 1;
      assert renamed[0].resourceKey == result[0].resourceKey && renamed[0].operation == result[0].operation;
    }
  }

  lemma RenamedPairs(edit: Edit, bindings: seq<ResourceBinding>, key: Key, operation: string)
    requires !SomeBecameDirectory(edit, bindings)
    ensures HasPair(RenamedBindings(edit, bindings), key, operation) <==> Due(edit, bindings, key, operation)
  {
    var renamed := RenamedBindings(edit, bindings);
    if HasPair(renamed, key, operation) {
      var i :| 0 <= i < |renamed| && renamed[i].resourceKey == key && renamed[i].operation == operation;
      assert Contributes(edit, bindings[i], renamed[i]);
    }
    if Due(edit, bindings, key, operation) {
      var i, result :| 0 <= i < |bindings| && Contributes(edit, bindings[i], result)
                       && result.resourceKey == key && result.operation == operation;
      assert renamed[i] == result;
    }
  }

  lemma ConvertedPairs(edit: Edit, bindings: seq<ResourceBinding>, converted: seq<ResourceBinding>, key: Key,
                       operation: string)
    requires Converts(edit, bindings, converted)
    requires forall i :: 0 <= i < |bindings| ==> ValidOperation(bindings[i].operation)
    ensures HasPair(converted, key, operation) <==> Due(edit, bindings, key, operation)
  {
    var listed :| Lists(edit, bindings, listed) && Merged(listed, converted);
    if HasPair(converted, key, operation) {
      PairIsDue(edit, bindings, listed, converted, key, operation);
    }
    if Due(edit, bindings, key, operation) {
      var i, result :| 0 <= i < |bindings| && Contributes(edit, bindings[i], result)
                       && result.resourceKey == key && result.operation == operation;
      assert result in listed;
      PairSurvives(edit, bindings, listed, converted, result);
    }
  }

  lemma PairIsDue(edit: Edit, bindings: seq<ResourceBinding>, listed: seq<ResourceBinding>,
                  converted: seq<ResourceBinding>,
                  key: Key, operation: string)
    requires Lists(edit, bindings, listed) && Merged(listed, converted) && HasPair(converted, key, operation)
    ensures Due(edit, bindings, key, operation)
  {
    var i :| 0 <= i < |converted| && converted[i].resourceKey == key && converted[i].operation == operation;
    assert Named(listed, converted[i]);
    var k :| 0 <= k < |listed| && listed[k].resourceKey == key && listed[k].operation == operation;
    assert listed[k] in listed;
  }

  lemma PairSurvives(edit: Edit, bindings: seq<ResourceBinding>, listed: seq<ResourceBinding>,
                     converted: seq<ResourceBinding>,
                     result: ResourceBinding)
    requires Merged(listed, converted) && result in listed
    requires forall i :: 0 <= i < |bindings| ==> ValidOperation(bindings[i].operation)
    requires Lists(edit, bindings, listed)
    ensures HasPair(converted, result.resourceKey, result.operation)
  {
    var k :| 0 <= k < |listed| && listed[k] == result;
    assert Present(converted, Identity(listed[k]));
    var i :| 0 <= i < |converted| && Identity(converted[i]) == Identity(result);
    assert Named(listed, converted[i]);
    var part :| 0 <= part < |listed| && listed[part].resourceKey == converted[i].resourceKey
                && listed[part].operation == converted[i].operation;
    assert listed[part] in listed;
    var from :| 0 <= from < |bindings| && Contributes(edit, bindings[from], listed[part]);
    ContributedOperation(edit, bindings[from], listed[part]);
    var own :| 0 <= own < |bindings| && Contributes(edit, bindings[own], result);
    ContributedOperation(edit, bindings[own], result);
    IdentityIsInjective(converted[i], result);
  }

  lemma ContributedOperation(edit: Edit, binding: ResourceBinding, result: ResourceBinding)
    requires ValidOperation(binding.operation) && Contributes(edit, binding, result)
    ensures ':' !in result.operation
  {
    ValidOperationsHaveNoColon(binding.operation);
    if BecameDirectory(edit, binding.resourceKey) {
      assert result.operation in Allowed(binding.operation);
      assert result.operation != "*" ==> result.operation == binding.operation || result.operation in FixedOperations;
      ValidOperationsHaveNoColon(result.operation);
    }
  }

  // ----- The features of the migrated bindings -----

  ghost predicate ContributesAll(edit: Edit, bindings: seq<ResourceBinding>, identity: string) {
    exists i, part :: 0 <= i < |bindings| && Contributes(edit, bindings[i], part) && Identity(part) == identity &&
                      part.featureKeys.None?
  }

  ghost predicate ContributesFeature(edit: Edit, bindings: seq<ResourceBinding>, identity: string, feature: string) {
    exists i, part :: 0 <= i < |bindings| && Contributes(edit, bindings[i], part) && Identity(part) == identity
                      && part.featureKeys.Some? && feature in part.featureKeys.value
  }

  lemma ConvertedFeatures(edit: Edit, bindings: seq<ResourceBinding>, converted: seq<ResourceBinding>, n: nat,
                          feature: string)
    requires Converts(edit, bindings, converted) && n < |converted|
    ensures converted[n].featureKeys.None? <==> ContributesAll(edit, bindings, Identity(converted[n]))
    ensures converted[n].featureKeys.Some? ==>
              (feature in converted[n].featureKeys.value <==>
               ContributesFeature(edit, bindings, Identity(converted[n]), feature))
  {
    var identity := Identity(converted[n]);
    var listed :| Lists(edit, bindings, listed) && Merged(listed, converted);
    assert Collected(listed, identity) == Some(converted[n].featureKeys);
    CollectedMeansUnion(listed, identity);
    hide Contributes, Identity, Collected;
    forall part ensures Part(listed, identity, part)
                   <==> Identity(part) == identity &&
                        exists i :: 0 <= i < |bindings| && Contributes(edit, bindings[i], part)
    {
      assert part in listed <==> ContributedBy(edit, bindings, |bindings|, part);
    }
  }

  /** What the bindings of the migrated configuration select: where a resource became a directory, everything if one
      contribution selects everything and otherwise the union of their lists; else the renamed lists as they were. */
  lemma MigratedFeatures(edit: Edit, config: Config, result: Config, n: nat, feature: string)
    requires ValidEdit(edit) && Sound(edit.after) && SelectionMigrated(edit, config, result)
    requires LegacyOrListed(config).Some? && config.builtin == ""
    ensures ConfigBindings(result).Some?
    ensures var bindings, migrated := LegacyOrListed(config).value, ConfigBindings(result).value;
            if !SomeBecameDirectory(edit, bindings) then migrated == RenamedBindings(edit, bindings)
            else n < |migrated| ==>
              && (migrated[n].featureKeys.None? <==> ContributesAll(edit, bindings, Identity(migrated[n])))
              && (migrated[n].featureKeys.Some? ==>
                    (feature in migrated[n].featureKeys.value <==>
                     ContributesFeature(edit, bindings, Identity(migrated[n]), feature)))
  {
    var bindings := LegacyOrListed(config).value;
    var listed, converted :| BindingsConverted(edit, config, listed) && DefaultsConverted(edit, listed, converted)
                             && result == RenamedConfig(edit, converted);
    hide Sound, ValidEdit, ContributesAll, ContributesFeature, Converts, Identity;
    assert converted == listed;
    if SomeBecameDirectory(edit, bindings) {
      ConvertedIsSettled(edit, bindings, listed.bindings.value);
      if n < |listed.bindings.value| {
        ConvertedFeatures(edit, bindings, listed.bindings.value, n, feature);
      }
    } else if config.bindings.None? {
      assert RenamedBindings(edit, bindings) == [RenamedBinding(edit, bindings[0])];
    }
  }
}
