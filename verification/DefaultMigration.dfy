/**
Default selections through a catalog edit, told by the two catalogs and the
old selection: which resources are read afterwards, with which features, and
what the resolution of the new selection allows.
*/
module DefaultMigration {
  import opened Options
  import opened ResourceCatalog
  import opened BindingMerge
  import opened DirectoryBindings
  import opened CatalogValidation
  import opened ActionConfig
  import opened ActionMigration
  import opened Words
  import Ordering
  import RenameMeaning

  predicate IsDefault(config: Config) {
    config.builtin == "default" && config.resourceKeys.Some? && LegacyOrListed(config).None?
  }

  /** A resource that a new directory reaches for reading. */
  ghost predicate ReadBelow(edit: Edit, key: Key, to: Key) {
    && BecameDirectory(edit, key)
    && var owner := MigratedKey(edit.resources, key);
       Reachable(edit.after, KeysInScope(edit.after, Scope(owner)), "read", {}, owner, to)
  }

  predicate KeptAs(edit: Edit, key: Key, to: Key) {
    !BecameDirectory(edit, key) && to == MigratedKey(edit.resources, key)
  }

  ghost predicate KeyDue(edit: Edit, keys: seq<Key>, to: Key) {
    exists key :: key in keys && (KeptAs(edit, key, to) || ReadBelow(edit, key, to))
  }

  predicate ReadFeature(catalog: Catalog, key: Key, feature: string) {
    && key in catalog.resources && "read" in catalog.resources[key].operations
    && feature in catalog.resources[key].operations["read"].buttonKeys
  }

  predicate IsSelected(selected: Option<seq<string>>, feature: string) {
    selected.None? || feature in selected.value
  }

  /** Without a list every feature was selected, and otherwise those listed under some old name. */
  ghost predicate WasSelected(edit: Edit, selected: Option<seq<string>>, feature: string) {
    selected.None? || exists known :: known in selected.value && MigratedKey(edit.features, known) == feature
  }

  ghost predicate FeatureDueAt(edit: Edit, selected: Option<seq<string>>, key: Key, to: Key, feature: string) {
    && ReadFeature(edit.after, to, feature)
    && (ReadBelow(edit, key, to) || (KeptAs(edit, key, to) && WasSelected(edit, selected, feature)))
  }

  ghost predicate FeatureDue(edit: Edit, keys: seq<Key>, selected: Option<seq<string>>, feature: string) {
    exists key, to :: key in keys && FeatureDueAt(edit, selected, key, to, feature)
  }

  // ----- One contribution -----

  lemma WasSelectedIsMigrated(edit: Edit, selected: seq<string>, feature: string)
    ensures feature in MigratedKeys(edit.features, selected) <==> WasSelected(edit, Some(selected), feature)
  {
    var migrated := MigratedKeys(edit.features, selected);
    if feature in migrated {
      var i :| 0 <= i < |migrated| && migrated[i] == feature;
      assert selected[i] in selected;
    }
    if known :| known in selected && MigratedKey(edit.features, known) == feature {
      var i :| 0 <= i < |selected| && selected[i] == known;
      assert migrated[i] == feature;
    }
  }

  lemma KeptFeaturesMean(edit: Edit, to: Key, selected: Option<seq<string>>, feature: string)
    ensures feature in KeptFeatures(edit, to, selected)
       <==> ReadFeature(edit.after, to, feature) && WasSelected(edit, selected, feature)
  {
    if selected.Some? {
      WasSelectedIsMigrated(edit, selected.value, feature);
    }
  }

  /** What one old key contributes: reading one resource with the features due there. */
  lemma ContributionMeans(edit: Edit, key: Key, selected: Option<seq<string>>, result: ResourceBinding,
                          feature: string)
    requires ReadContribution(edit, key, selected, result)
    ensures result.operation == "read" && result.featureKeys.Some?
    ensures KeptAs(edit, key, result.resourceKey) || ReadBelow(edit, key, result.resourceKey)
    ensures feature in result.featureKeys.value <==> FeatureDueAt(edit, selected, key, result.resourceKey, feature)
  {
    hide KeptFeatures, Reachable, WasSelected;
    KeptFeaturesMean(edit, result.resourceKey, selected, feature);
    if BecameDirectory(edit, key) {
      assert Allowed("read") == ["read"];
      ReachedOffers(edit, key, result.resourceKey);
    }
  }

  lemma ReachedOffers(edit: Edit, key: Key, to: Key)
    requires ReadBelow(edit, key, to)
    ensures Offers(edit.after, to, "read")
  {
  }

  lemma KeyContributes(edit: Edit, key: Key, selected: Option<seq<string>>, to: Key) returns (result: ResourceBinding)
    requires KeptAs(edit, key, to) || ReadBelow(edit, key, to)
    ensures ReadContribution(edit, key, selected, result) && result.resourceKey == to
  {
    hide KeptFeatures, Reachable;
    if BecameDirectory(edit, key) {
      ReachedOffers(edit, key, to);
      result := FullBinding(edit.after, to, "read");
    } else {
      result := ResourceBinding(to, "read", Some(KeptFeatures(edit, to, selected)));
    }
  }

  // ----- The merged contributions -----

  ghost predicate HasKey(bindings: seq<ResourceBinding>, key: Key) {
    exists i :: 0 <= i < |bindings| && bindings[i].resourceKey == key
  }

  ghost predicate HasFeature(bindings: seq<ResourceBinding>, feature: string) {
    exists i :: 0 <= i < |bindings| && bindings[i].featureKeys.Some? && feature in bindings[i].featureKeys.value
  }

  lemma {:induction false} ListedKeysAndFeatures(bindings: seq<ResourceBinding>, key: Key, feature: string)
    ensures key in BindingKeys(bindings) <==> HasKey(bindings, key)
    ensures feature in BindingFeatures(bindings) <==> HasFeature(bindings, feature)
  {
    if bindings != [] {
      var before := bindings[..|bindings| - 1];
      assert forall i :: 0 <= i < |before| ==> before[i] == bindings[i];
      ListedKeysAndFeatures(before, key, feature);
    }
  }

  /** Contributions of a default selection. */
  ghost predicate Reads(edit: Edit, keys: seq<Key>, selected: Option<seq<string>>, listed: seq<ResourceBinding>) {
    forall result :: result in listed <==> ReadBy(edit, keys, |keys|, selected, result)
  }

  lemma ListedContribution(edit: Edit, keys: seq<Key>, selected: Option<seq<string>>, listed: seq<ResourceBinding>,
                           result: ResourceBinding)
    requires Reads(edit, keys, selected, listed)
    ensures result in listed <==> exists key :: key in keys && ReadContribution(edit, key, selected, result)
    ensures result in listed ==> result.operation == "read" && result.featureKeys.Some?
  {
    hide ReadContribution;
    if result in listed {
      var i :| 0 <= i < |keys| && ReadContribution(edit, keys[i], selected, result);
      assert keys[i] in keys;
      ContributionMeans(edit, keys[i], selected, result, "");
    }
    if key :| key in keys && ReadContribution(edit, key, selected, result) {
      var i :| 0 <= i < |keys| && keys[i] == key;
      assert ReadBy(edit, keys, |keys|, selected, result);
    }
  }

  lemma ReadIdentity(a: ResourceBinding, b: ResourceBinding)
    requires a.operation == "read" && b.operation == "read" && Identity(a) == Identity(b)
    ensures a.resourceKey == b.resourceKey
  {
    IdentityIsInjective(a, b);
  }

  lemma MergedReadsKey(edit: Edit, keys: seq<Key>, selected: Option<seq<string>>, listed: seq<ResourceBinding>,
                       merged: seq<ResourceBinding>, to: Key)
    requires Reads(edit, keys, selected, listed) && Merged(listed, merged)
    ensures HasKey(merged, to) <==> KeyDue(edit, keys, to)
  {
    hide Reads, ReadContribution, Collected;
    if HasKey(merged, to) {
      var i :| 0 <= i < |merged| && merged[i].resourceKey == to;
      var part := NamedPart(edit, keys, selected, listed, merged, i);
      var key :| key in keys && ReadContribution(edit, key, selected, part);
      ContributionMeans(edit, key, selected, part, "");
    }
    if KeyDue(edit, keys, to) {
      var key :| key in keys && (KeptAs(edit, key, to) || ReadBelow(edit, key, to));
      var result := KeyContributes(edit, key, selected, to);
      ListedContribution(edit, keys, selected, listed, result);
      var k :| 0 <= k < |listed| && listed[k] == result;
      assert Present(merged, Identity(listed[k]));
      var i :| 0 <= i < |merged| && Identity(merged[i]) == Identity(result);
      var part := NamedPart(edit, keys, selected, listed, merged, i);
      ReadIdentity(merged[i], result);
    }
  }

  lemma NamedPart(edit: Edit, keys: seq<Key>, selected: Option<seq<string>>, listed: seq<ResourceBinding>,
                  merged: seq<ResourceBinding>, i: nat) returns (part: ResourceBinding)
    requires Reads(edit, keys, selected, listed) && Merged(listed, merged) && i < |merged|
    ensures part in listed && part.resourceKey == merged[i].resourceKey && merged[i].operation == "read"
    ensures exists key :: key in keys && ReadContribution(edit, key, selected, part)
  {
    hide Reads, ReadContribution, Collected;
    assert Named(listed, merged[i]);
    var k :| 0 <= k < |listed| && listed[k].resourceKey == merged[i].resourceKey &&
             listed[k].operation == merged[i].operation;
    part := listed[k];
    ListedContribution(edit, keys, selected, listed, part);
  }

  /** The features merged for one resource are those due at it. */
  lemma MergedReadsFeatureAt(edit: Edit, keys: seq<Key>, selected: Option<seq<string>>, listed: seq<ResourceBinding>,
                             merged: seq<ResourceBinding>, i: nat, feature: string)
    requires Reads(edit, keys, selected, listed) && Merged(listed, merged) && i < |merged|
    ensures merged[i].operation == "read" && merged[i].featureKeys.Some?
    ensures feature in merged[i].featureKeys.value
       <==> exists key :: key in keys && FeatureDueAt(edit, selected, key, merged[i].resourceKey, feature)
  {
    hide Reads, ReadContribution, FeatureDueAt, Collected;
    var entry := merged[i];
    var first := NamedPart(edit, keys, selected, listed, merged, i);
    CollectedMeansUnion(listed, Identity(entry));
    forall part ensures Part(listed, Identity(entry), part)
                   <==> part.resourceKey == entry.resourceKey &&
                        exists key :: key in keys && ReadContribution(edit, key, selected, part)
    {
      ListedContribution(edit, keys, selected, listed, part);
      if Part(listed, Identity(entry), part) {
        ReadIdentity(entry, part);
      }
    }
    forall part | Part(listed, Identity(entry), part) ensures part.featureKeys.Some? {
      ListedContribution(edit, keys, selected, listed, part);
    }
    if feature in entry.featureKeys.value {
      var part :| Part(listed, Identity(entry), part) && part.featureKeys.Some? && feature in part.featureKeys.value;
      var key :| key in keys && ReadContribution(edit, key, selected, part);
      ContributionMeans(edit, key, selected, part, feature);
    }
    if key :| key in keys && FeatureDueAt(edit, selected, key, entry.resourceKey, feature) {
      DueKeyReads(edit, selected, key, entry.resourceKey, feature);
      var part := KeyContributes(edit, key, selected, entry.resourceKey);
      ContributionMeans(edit, key, selected, part, feature);
      assert Part(listed, Identity(entry), part);
    }
  }

  lemma DueKeyReads(edit: Edit, selected: Option<seq<string>>, key: Key, to: Key, feature: string)
    requires FeatureDueAt(edit, selected, key, to, feature)
    ensures KeptAs(edit, key, to) || ReadBelow(edit, key, to)
  {
  }

  lemma MergedReadsFeature(edit: Edit, keys: seq<Key>, selected: Option<seq<string>>, listed: seq<ResourceBinding>,
                           merged: seq<ResourceBinding>, feature: string)
    requires Reads(edit, keys, selected, listed) && Merged(listed, merged)
    ensures HasFeature(merged, feature) <==> FeatureDue(edit, keys, selected, feature)
  {
    hide Reads, FeatureDueAt, Merged, KeyDue;
    forall i | 0 <= i < |merged|
      ensures merged[i].featureKeys.Some?
      ensures feature in merged[i].featureKeys.value
         <==> exists key :: key in keys && FeatureDueAt(edit, selected, key, merged[i].resourceKey, feature)
    {
      MergedReadsFeatureAt(edit, keys, selected, listed, merged, i, feature);
    }
    if FeatureDue(edit, keys, selected, feature) {
      var key, to :| key in keys && FeatureDueAt(edit, selected, key, to, feature);
      DueKeyReads(edit, selected, key, to, feature);
      assert KeyDue(edit, keys, to) by { KeyIsDue(edit, keys, key, to); }
      MergedReadsKey(edit, keys, selected, listed, merged, to);
      var i :| 0 <= i < |merged| && merged[i].resourceKey == to;
      assert feature in merged[i].featureKeys.value;
    }
  }

  lemma KeyIsDue(edit: Edit, keys: seq<Key>, key: Key, to: Key)
    requires key in keys && (KeptAs(edit, key, to) || ReadBelow(edit, key, to))
    ensures KeyDue(edit, keys, to)
  {
  }

  // ----- Each key and each feature once -----

  predicate Unrepeated(s: seq<string>) {
    forall i, j :: 0 <= i < j < |s| ==> s[i] != s[j]
  }

  lemma {:induction false} AppendedOnce(left: seq<string>, right: seq<string>)
    requires Unrepeated(left)
    ensures Unrepeated(AppendMissing(left, right))
    decreases right
  {
    if right != [] {
      AppendedOnce(if right[0] in left then left else left + [right[0]], right[1..]);
    }
  }

  lemma {:induction false} KeptOnce(keep: string -> bool, s: seq<string>)
    requires Unrepeated(s)
    ensures Unrepeated(Ordering.Keep(keep, s))
  {
    if s != [] {
      assert s == [s[0]] + s[1..] && s[0] !in s[1..];
      KeptOnce(keep, s[1..]);
    }
  }

  predicate ListsOnce(binding: ResourceBinding) {
    binding.featureKeys.Some? && Unrepeated(binding.featureKeys.value)
  }

  lemma {:induction false} CollectedOnce(bindings: seq<ResourceBinding>, identity: string)
    requires forall binding :: binding in bindings ==> ListsOnce(binding)
    ensures var collected := Collected(bindings, identity);
            collected.Some? ==> collected.value.Some? && Unrepeated(collected.value.value)
  {
    if bindings != [] {
      hide Unrepeated;
      var before, last := bindings[..|bindings| - 1], bindings[|bindings| - 1];
      assert last in bindings;
      CollectedOnce(before, identity);
      var collected := Collected(before, identity);
      if collected.Some? {
        AppendedOnce(collected.value.value, last.featureKeys.value);
      }
    }
  }

  /** The features of a read operation are listed once, under their own key. */
  lemma RegisteredOnce(catalog: Catalog, key: Key)
    requires Sound(catalog) && key in catalog.resources && "read" in catalog.resources[key].operations
    ensures Unrepeated(catalog.resources[key].operations["read"].buttonKeys)
    ensures forall feature :: ReadFeature(catalog, key, feature) ==> FeatureUnder(key, feature)
  {
    assert NodeOk(catalog, key) && OperationOk(catalog, key, catalog.resources[key], "read");
    hide Sound, NodeOk;
    var listed := catalog.resources[key].operations["read"].buttonKeys;
    forall i, j | 0 <= i < j < |listed| ensures listed[i] != listed[j] {
      assert listed[..j][i] == listed[i];
    }
  }

  lemma ContributionListsOnce(edit: Edit, key: Key, selected: Option<seq<string>>, result: ResourceBinding)
    requires Sound(edit.after) && ReadContribution(edit, key, selected, result)
    ensures ListsOnce(result)
  {
    hide Sound, Unrepeated;
    ContributionMeans(edit, key, selected, result, "");
    var to := result.resourceKey;
    if BecameDirectory(edit, key) {
      RegisteredOnce(edit.after, to);
    } else if to in edit.after.resources && "read" in edit.after.resources[to].operations {
      RegisteredOnce(edit.after, to);
      KeptOnce(feature => selected.None? || feature in MigratedKeys(edit.features, selected.value),
               edit.after.resources[to].operations["read"].buttonKeys);
    } else {
      assert Unrepeated([]) by { NothingRepeated(); }
    }
  }

  lemma NothingRepeated()
    ensures Unrepeated([])
  {
  }

  lemma ColonBehind(a: Key, b: Key, feature: string)
    requires |a| < |b| && b + ":" <= feature
    ensures ':' in feature[|a| + 1..]
  {
    assert feature[|a| + 1..][|b| - |a| - 1] == (b + ":")[|b|] == ':';
  }

  /** A feature names the one key it stands under. */
  lemma FeatureNamesItsKey(a: Key, b: Key, feature: string)
    requires FeatureUnder(a, feature) && FeatureUnder(b, feature)
    ensures a == b
  {
    if |a| < |b| {
      ColonBehind(a, b, feature);
    } else if |b| < |a| {
      ColonBehind(b, a, feature);
    } else {
      assert (a + ":")[..|a|] == (b + ":")[..|b|];
    }
  }

  ghost predicate Owns(binding: ResourceBinding) {
    binding.featureKeys.Some? ==>
      forall feature :: feature in binding.featureKeys.value ==> FeatureUnder(binding.resourceKey, feature)
  }

  lemma {:induction false} KeysInOrder(bindings: seq<ResourceBinding>)
    ensures |BindingKeys(bindings)| == |bindings|
    ensures forall i :: 0 <= i < |bindings| ==> BindingKeys(bindings)[i] == bindings[i].resourceKey
  {
    if bindings != [] {
      KeysInOrder(bindings[..|bindings| - 1]);
    }
  }

  lemma JoinedOnce(left: seq<string>, right: seq<string>)
    requires Unrepeated(left) && Unrepeated(right) && forall x :: x in left ==> x !in right
    ensures Unrepeated(left + right)
  {
    var joined := left + right;
    forall i, j | 0 <= i < j < |joined| ensures joined[i] != joined[j] {
      assert i < |left| ==> left[i] in left;
      assert j >= |left| ==> right[j - |left|] in right;
    }
  }

  lemma {:induction false} FeaturesListedOnce(bindings: seq<ResourceBinding>)
    requires forall i :: 0 <= i < |bindings| ==> ListsOnce(bindings[i]) && Owns(bindings[i])
    requires forall i, j :: 0 <= i < j < |bindings| ==> bindings[i].resourceKey != bindings[j].resourceKey
    ensures Unrepeated(BindingFeatures(bindings))
  {
    if bindings != [] {
      hide Unrepeated, FeatureUnder;
      var before, last := bindings[..|bindings| - 1], bindings[|bindings| - 1];
      FeaturesListedOnce(before);
      forall feature | feature in BindingFeatures(before) ensures feature !in last.featureKeys.value {
        ListedKeysAndFeatures(before, "", feature);
        var i :| 0 <= i < |before| && feature in before[i].featureKeys.value;
        assert before[i] == bindings[i];
        if feature in last.featureKeys.value {
          FeatureNamesItsKey(before[i].resourceKey, last.resourceKey, feature);
          assert false;
        }
      }
      JoinedOnce(BindingFeatures(before), last.featureKeys.value);
    } else {
      NothingRepeated();
    }
  }

  lemma MergedReadsAt(edit: Edit, keys: seq<Key>, selected: Option<seq<string>>, listed: seq<ResourceBinding>,
                      merged: seq<ResourceBinding>, i: nat)
    requires Sound(edit.after) && Reads(edit, keys, selected, listed) && Merged(listed, merged) && i < |merged|
    ensures merged[i].operation == "read" && ListsOnce(merged[i]) && Owns(merged[i])
  {
    hide Reads, Sound, FeatureDueAt, FeatureUnder, ReadContribution, Unrepeated;
    MergedReadsFeatureAt(edit, keys, selected, listed, merged, i, "");
    forall part | part in listed ensures ListsOnce(part) {
      ListedContribution(edit, keys, selected, listed, part);
      var key :| key in keys && ReadContribution(edit, key, selected, part);
      ContributionListsOnce(edit, key, selected, part);
    }
    CollectedOnce(listed, Identity(merged[i]));
    forall feature | feature in merged[i].featureKeys.value ensures FeatureUnder(merged[i].resourceKey, feature) {
      MergedReadsFeatureAt(edit, keys, selected, listed, merged, i, feature);
      var key :| key in keys && FeatureDueAt(edit, selected, key, merged[i].resourceKey, feature);
      DueUnderKey(edit, selected, key, merged[i].resourceKey, feature);
    }
  }

  lemma DueUnderKey(edit: Edit, selected: Option<seq<string>>, key: Key, to: Key, feature: string)
    requires Sound(edit.after) && FeatureDueAt(edit, selected, key, to, feature)
    ensures FeatureUnder(to, feature)
  {
    hide Sound, FeatureUnder;
    RegisteredOnce(edit.after, to);
  }

  /** No key and no feature of the converted selection is listed twice. */
  lemma ConvertedOnce(edit: Edit, keys: seq<Key>, selected: Option<seq<string>>, listed: seq<ResourceBinding>,
                      merged: seq<ResourceBinding>)
    requires Sound(edit.after) && Reads(edit, keys, selected, listed) && Merged(listed, merged)
    ensures Unrepeated(BindingKeys(merged)) && Unrepeated(BindingFeatures(merged))
  {
    hide Reads, Sound, Owns, ListsOnce, Collected;
    forall i | 0 <= i < |merged| ensures merged[i].operation == "read" && ListsOnce(merged[i]) && Owns(merged[i]) {
      MergedReadsAt(edit, keys, selected, listed, merged, i);
    }
    forall i, j | 0 <= i < j < |merged| ensures merged[i].resourceKey != merged[j].resourceKey {
      assert Identity(merged[i]) != Identity(merged[j]);
    }
    KeysInOrder(merged);
    FeaturesListedOnce(merged);
  }

  // ----- The rename pass -----

  lemma DueKeyIsSettled(edit: Edit, keys: seq<Key>, to: Key)
    requires ValidEdit(edit) && KeyDue(edit, keys, to)
    ensures MigratedKey(edit.resources, to) == to
  {
    var key :| key in keys && (KeptAs(edit, key, to) || ReadBelow(edit, key, to));
    if KeptAs(edit, key, to) {
      RenameTwiceIsOnce(edit.resources, edit.before.resources.Keys, edit.after.resources.Keys, key);
    } else {
      ReachedOffers(edit, key, to);
      RegisteredKeyStays(edit.resources, edit.before.resources.Keys, edit.after.resources.Keys, to);
    }
  }

  lemma DueFeatureIsSettled(edit: Edit, keys: seq<Key>, selected: Option<seq<string>>, feature: string)
    requires ValidEdit(edit) && Sound(edit.after) && FeatureDue(edit, keys, selected, feature)
    ensures MigratedKey(edit.features, feature) == feature
  {
    var key, to :| key in keys && FeatureDueAt(edit, selected, key, to, feature);
    RenameMeaning.RegisteredReading(edit.after, to, feature);
    RegisteredKeyStays(edit.features, edit.before.buttons.Keys, edit.after.buttons.Keys, feature);
  }

  lemma AllSettled(renames: Renames, keys: seq<string>)
    requires forall key :: key in keys ==> MigratedKey(renames, key) == key
    ensures MigratedKeys(renames, keys) == keys
  {
  }

  /** The converted keys and features, which the rename pass leaves as they are. */
  lemma ConvertedDefault(edit: Edit, config: Config, converted: Config)
    requires ValidEdit(edit) && Sound(edit.after) && IsDefault(config)
    requires SomeKeyBecameDirectory(edit, config.resourceKeys.value) && DefaultsConverted(edit, config, converted)
    ensures IsDefault(converted) && converted.featureKeys.Some?
    ensures forall key :: key in converted.resourceKeys.value <==> KeyDue(edit, config.resourceKeys.value, key)
    ensures forall feature :: feature in converted.featureKeys.value
                         <==> FeatureDue(edit, config.resourceKeys.value, config.featureKeys, feature)
    ensures Unrepeated(converted.resourceKeys.value) && Unrepeated(converted.featureKeys.value)
    ensures RenamedConfig(edit, converted) == converted
  {
    hide Sound, ValidEdit, BindingKeys, BindingFeatures, KeyDue, FeatureDue;
    var keys, selected := config.resourceKeys.value, config.featureKeys;
    var merged :| ReadsMerged(edit, keys, selected, merged)
                  && converted == config.(resourceKeys := Some(BindingKeys(merged)),
                                          featureKeys := Some(BindingFeatures(merged)));
    var listed :| Merged(listed, merged) && Reads(edit, keys, selected, listed);
    ConvertedOnce(edit, keys, selected, listed, merged);
    hide Merged, Reads, Unrepeated;
    forall key ensures key in BindingKeys(merged) <==> KeyDue(edit, keys, key) {
      ListedKeysAndFeatures(merged, key, "");
      MergedReadsKey(edit, keys, selected, listed, merged, key);
    }
    forall feature ensures feature in BindingFeatures(merged) <==> FeatureDue(edit, keys, selected, feature) {
      ListedKeysAndFeatures(merged, "", feature);
      MergedReadsFeature(edit, keys, selected, listed, merged, feature);
    }
    forall key | key in BindingKeys(merged) ensures MigratedKey(edit.resources, key) == key {
      DueKeyIsSettled(edit, keys, key);
    }
    forall feature | feature in BindingFeatures(merged) ensures MigratedKey(edit.features, feature) == feature {
      DueFeatureIsSettled(edit, keys, selected, feature);
    }
    AllSettled(edit.resources, BindingKeys(merged));
    AllSettled(edit.features, BindingFeatures(merged));
  }

  /**
  The migrated default selection. A resource is listed exactly if an old key
  stands for it under its new name, or a new directory reaches it for reading.
  Where a key became a directory, a feature is selected exactly if it is a read
  feature of a kept resource that was selected, or of a reached one, and nothing
  is listed twice; otherwise the list is the renamed one.
  */
  lemma DefaultMigrated(edit: Edit, config: Config, result: Config, key: Key, feature: string)
    requires ValidEdit(edit) && Sound(edit.after) && SelectionMigrated(edit, config, result) && IsDefault(config)
    ensures IsDefault(result)
    ensures key in result.resourceKeys.value <==> KeyDue(edit, config.resourceKeys.value, key)
    ensures if SomeKeyBecameDirectory(edit, config.resourceKeys.value)
            then result.featureKeys.Some? &&
                 Unrepeated(result.resourceKeys.value) && Unrepeated(result.featureKeys.value) &&
                 (feature in result.featureKeys.value <==>
                  FeatureDue(edit, config.resourceKeys.value, config.featureKeys, feature))
            else result.featureKeys == MigratedList(edit.features, config.featureKeys)
  {
    var listed, converted :| BindingsConverted(edit, config, listed) && DefaultsConverted(edit, listed, converted)
                             && result == RenamedConfig(edit, converted);
    assert listed == config;
    if SomeKeyBecameDirectory(edit, config.resourceKeys.value) {
      ConvertedDefault(edit, config, converted);
    } else {
      assert converted == config;
      RenamedKeysAreDue(edit, config.resourceKeys.value, key);
    }
  }

  lemma RenamedKeysAreDue(edit: Edit, keys: seq<Key>, to: Key)
    requires !SomeKeyBecameDirectory(edit, keys)
    ensures to in MigratedKeys(edit.resources, keys) <==> KeyDue(edit, keys, to)
  {
    var migrated := MigratedKeys(edit.resources, keys);
    if to in migrated {
      var i :| 0 <= i < |migrated| && migrated[i] == to;
      assert keys[i] in keys && KeptAs(edit, keys[i], to);
    }
    if key :| key in keys && (KeptAs(edit, key, to) || ReadBelow(edit, key, to)) {
      var i :| 0 <= i < |keys| && keys[i] == key;
      assert migrated[i] == to;
    }
  }

  predicate IsDirectory(catalog: Catalog, key: Key) {
    key in catalog.resources && catalog.resources[key].kind == "directory"
  }

  predicate WasResource(edit: Edit, key: Key) {
    key in edit.before.resources && edit.before.resources[key].kind == "resource"
  }

  /** A default selection of resources lists no directory after the edit. */
  lemma NoDirectoryIsRead(edit: Edit, config: Config, result: Config, key: Key)
    requires ValidEdit(edit) && Sound(edit.after) && SelectionMigrated(edit, config, result) && IsDefault(config)
    requires forall known :: known in config.resourceKeys.value ==> WasResource(edit, known)
    ensures result.resourceKeys.Some? && key in result.resourceKeys.value ==> !IsDirectory(edit.after, key)
  {
    hide SelectionMigrated, Sound, ValidEdit, Reachable;
    DefaultMigrated(edit, config, result, key, "");
    if result.resourceKeys.Some? && key in result.resourceKeys.value {
      var from :| from in config.resourceKeys.value && (KeptAs(edit, from, key) || ReadBelow(edit, from, key));
      if ReadBelow(edit, from, key) {
        ReachedOffers(edit, from, key);
      }
    }
  }

  /** Explicit bindings of resources name no directory after the edit. */
  lemma NoDirectoryIsBound(edit: Edit, config: Config, result: Config, key: Key, operation: string)
    requires ValidEdit(edit) && Sound(edit.after) && SelectionMigrated(edit, config, result)
    requires LegacyOrListed(config).Some?
    requires forall binding :: binding in LegacyOrListed(config).value ==>
               ValidOperation(binding.operation) && WasResource(edit, binding.resourceKey)
    ensures ConfigBindings(result).Some?
    ensures HasPair(ConfigBindings(result).value, key, operation) ==> !IsDirectory(edit.after, key)
  {
    hide SelectionMigrated, Sound, ValidEdit, ValidOperation;
    var bindings := LegacyOrListed(config).value;
    assert forall i :: 0 <= i < |bindings| ==> bindings[i] in bindings;
    MigratedPairs(edit, config, result, key, operation);
    if HasPair(ConfigBindings(result).value, key, operation) {
      var i, due :| 0 <= i < |bindings| && Contributes(edit, bindings[i], due) && due.resourceKey == key &&
                    due.operation == operation;
      assert bindings[i] in bindings;
    }
  }
}
