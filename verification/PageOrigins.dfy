/**
Where the pages of a resolution come from: each one carries the path and the
parent that its owner registers for it.
*/
module PageOrigins {
  import opened Options
  import opened ResourceCatalog
  import opened Ordering
  import opened Grants
  import opened ActionConfig
  import opened CatalogValidation
  import GrantLoops

  predicate RegisteredBy(catalog: Catalog, owner: Key, page: UiBinding) {
    && owner in catalog.resources
    && page.menuKey in catalog.resources[owner].entries
    && page.menuPath == catalog.resources[owner].entries[page.menuKey].path
    && page.parentMenuKey == catalog.resources[owner].entries[page.menuKey].parentMenuKey
  }

  ghost predicate Original(catalog: Catalog, page: UiBinding) {
    exists owner :: RegisteredBy(catalog, owner, page)
  }

  ghost predicate AllOriginal(catalog: Catalog, ui: seq<UiBinding>) {
    forall i :: 0 <= i < |ui| ==> Original(catalog, ui[i])
  }

  lemma OwnedEntry(catalog: Catalog, entry: string, page: UiBinding)
    requires Owners(catalog, entry) != {} && page.menuKey == entry
    requires page.menuPath == EntryOf(catalog, entry).path
    requires page.parentMenuKey == EntryOf(catalog, entry).parentMenuKey
    ensures Original(catalog, page)
  {
    StringOrder();
    assert RegisteredBy(catalog, Least(StringBelow, Owners(catalog, entry)), page);
  }

  lemma {:induction false} EntriesAreOriginal(catalog: Catalog, entries: seq<string>, pages: set<string>,
                                              buttons: seq<string>)
    requires forall entry :: entry in entries ==> Owners(catalog, entry) != {}
    ensures AllOriginal(catalog, ShowEntries(catalog, entries, pages, buttons))
  {
    if entries != [] {
      hide Original, EntryOf, Owners;
      assert entries[0] in entries;
      EntriesAreOriginal(catalog, entries[1..], pages, buttons);
      OwnedEntry(catalog, entries[0], ShowEntries(catalog, entries, pages, buttons)[0]);
    }
  }

  lemma OperationPagesAreOriginal(catalog: Catalog, key: Key, operation: string, selected: Option<seq<string>>,
                                  fields: Fields)
    requires ResolveOperation(catalog, key, operation, selected, fields).Some?
    ensures AllOriginal(catalog, ResolveOperation(catalog, key, operation, selected, fields).value.ui)
  {
    hide Original;
    var binding := catalog.resources[key].operations[operation];
    var features := Chosen(binding, selected);
    var buttons := FeatureButtons(catalog, features);
    var pages := FeaturePages(catalog, features) + set entry | entry in binding.entryKeys;
    EntriesAreOriginal(catalog, SortedStrings(ShownEntries(catalog, key, pages, buttons)), pages, buttons);
  }

  lemma {:induction false} EachPageIsOriginal(catalog: Catalog, requests: seq<Request>, fields: Fields)
    requires ResolveEach(catalog, requests, fields).Some?
    ensures AllOriginal(catalog, ResolveEach(catalog, requests, fields).value.ui)
  {
    if requests != [] {
      hide Original, ResolveOperation;
      var last := requests[|requests| - 1];
      EachPageIsOriginal(catalog, requests[..|requests| - 1], fields);
      OperationPagesAreOriginal(catalog, last.key, last.operation, last.selected, fields);
    }
  }

  lemma {:induction false} MarkedPagesAreOriginal(catalog: Catalog, ui: seq<UiBinding>)
    requires AllOriginal(catalog, ui)
    ensures AllOriginal(catalog, MarkPages(ui))
  {
    if ui != [] {
      hide Original;
      assert forall i :: 0 <= i < |ui[1..]| ==> ui[1..][i] == ui[i + 1];
      MarkedPagesAreOriginal(catalog, ui[1..]);
      MarkedPage(catalog, ui[0]);
    }
  }

  lemma MarkedPage(catalog: Catalog, page: UiBinding)
    requires Original(catalog, page)
    ensures Original(catalog, page.(pageEntry := true))
  {
    var owner :| RegisteredBy(catalog, owner, page);
    assert RegisteredBy(catalog, owner, page.(pageEntry := true));
  }

  lemma {:induction false} MissingEntriesAreOriginal(catalog: Catalog, key: Key, entries: seq<string>,
                                                     present: set<string>)
    requires key in catalog.resources && forall entry :: entry in entries ==> entry in catalog.resources[key].entries
    ensures AllOriginal(catalog, MissingEntries(catalog.resources[key], entries, present))
    decreases entries
  {
    if entries != [] {
      assert entries[0] in entries;
      var added := MissingEntries(catalog.resources[key], entries, present);
      if entries[0] in present {
        MissingEntriesAreOriginal(catalog, key, entries[1..], present);
      } else {
        MissingEntriesAreOriginal(catalog, key, entries[1..], present + {entries[0]});
        assert RegisteredBy(catalog, key, added[0]);
      }
    }
  }

  lemma {:induction false} MissingPagesAreOriginal(catalog: Catalog, keys: seq<Key>, present: set<string>)
    requires forall key :: key in keys ==> key in catalog.resources
    ensures AllOriginal(catalog, MissingPages(catalog, keys, present))
    decreases keys
  {
    if keys != [] {
      hide Original;
      var node := catalog.resources[keys[0]];
      MissingEntriesAreOriginal(catalog, keys[0], SortedStrings(node.entries.Keys), present);
      MissingPagesAreOriginal(catalog, keys[1..], present + node.entries.Keys);
    }
  }

  lemma AllPagesAreOriginal(catalog: Catalog, scope: string, fields: Fields)
    requires ResolveAll(catalog, scope, fields).Some?
    ensures AllOriginal(catalog, ResolveAll(catalog, scope, fields).value.ui)
  {
    hide Original, ResolveEach, EveryOperation, MarkPages, MissingPages;
    var keys := SortedStrings(set key | key in catalog.resources && InScope(key, scope));
    EachPageIsOriginal(catalog, EveryOperation(catalog, keys), fields);
    var ui := ResolveEach(catalog, EveryOperation(catalog, keys), fields).value.ui;
    MarkedPagesAreOriginal(catalog, ui);
    var present := set shown | shown in MarkPages(ui) :: shown.menuKey;
    MissingPagesAreOriginal(catalog, keys, present);
  }

  lemma BindingPagesAreOriginal(catalog: Catalog, scope: string, binding: ResourceBinding, fields: Fields)
    requires ResolveBinding(catalog, scope, binding.resourceKey, binding.operation, binding.featureKeys, fields).Some?
    ensures AllOriginal(catalog, ResolveBinding(catalog, scope, binding.resourceKey, binding.operation,
                                                binding.featureKeys, fields).value.ui)
  {
    hide Original, ResolveAll, ResolveOperation;
    if Wildcard(catalog, binding.resourceKey, binding.operation) {
      AllPagesAreOriginal(catalog, scope, fields);
    } else {
      OperationPagesAreOriginal(catalog, binding.resourceKey, binding.operation, binding.featureKeys, fields);
    }
  }

  lemma {:induction false} BindingsPagesAreOriginal(catalog: Catalog, scope: string, bindings: seq<ResourceBinding>,
                                                    fields: Fields)
    requires ResolveBindings(catalog, scope, bindings, fields).Some?
    ensures AllOriginal(catalog, ResolveBindings(catalog, scope, bindings, fields).value.ui)
  {
    if bindings != [] {
      hide Original, ResolveBinding;
      BindingsPagesAreOriginal(catalog, scope, bindings[..|bindings| - 1], fields);
      BindingPagesAreOriginal(catalog, scope, bindings[|bindings| - 1], fields);
    }
  }

  /** Merging keeps the path and the parent of the first occurrence. */
  lemma {:induction false} MergedPagesAreOriginal(catalog: Catalog, ui: seq<UiBinding>)
    requires AllOriginal(catalog, ui)
    ensures AllOriginal(catalog, MergePages(ui))
  {
    if ui != [] {
      hide Original;
      var before := ui[..|ui| - 1];
      MergedPagesAreOriginal(catalog, before);
      var pages, entry := MergePages(before), ui[|ui| - 1];
      var at := Position(pages, entry.menuKey);
      if at < |pages| {
        CombinedPage(catalog, pages[at], entry);
      }
    }
  }

  lemma CombinedPage(catalog: Catalog, page: UiBinding, again: UiBinding)
    requires Original(catalog, page)
    ensures Original(catalog, Combine(page, again))
  {
    var owner :| RegisteredBy(catalog, owner, page);
    assert RegisteredBy(catalog, owner, Combine(page, again));
  }

  lemma GrantedPagesAreOriginal(catalog: Catalog, word: string, config: Config, fields: Fields)
    requires ResolveGrant(catalog, word, config, fields).Some?
    ensures AllOriginal(catalog, ResolveGrant(catalog, word, config, fields).value.ui)
  {
    hide Original, ResolveAll, ResolveBindings, ResolveEach, BindingsOk;
    var scope := Scope(word);
    if ConfigBindings(config).Some? {
      BindingsPagesAreOriginal(catalog, scope, ConfigBindings(config).value, fields);
    } else if config.builtin == "default" && config.resourceKeys.Some? {
      EachPageIsOriginal(catalog, ReadRequests(catalog, config.resourceKeys.value, config.featureKeys), fields);
    } else {
      AllPagesAreOriginal(catalog, scope, fields);
    }
  }

  lemma OnlyOwner(catalog: Catalog, ui: seq<UiBinding>, i: nat, owner: Key)
    requires GrantLoops.OneOwnerEach(catalog) && AllOriginal(catalog, ui) && i < |ui|
    requires owner in Owners(catalog, ui[i].menuKey)
    ensures RegisteredBy(catalog, owner, ui[i])
  {
    assert Original(catalog, ui[i]);
    var other :| RegisteredBy(catalog, other, ui[i]);
    assert other in Owners(catalog, ui[i].menuKey);
  }

  /**
  Every page of a resolved configuration carries the path and the parent its
  owner registers, and on a valid catalog that owner is the only one.
  */
  lemma ResolvedPagesAreOriginal(catalog: Catalog, word: string, config: Config, fields: Fields)
    requires ResolveConfig(catalog, word, config, fields).Some?
    ensures var ui := ResolveConfig(catalog, word, config, fields).value.ui;
            && AllOriginal(catalog, ui)
            && (Sound(catalog) ==>
                  forall i, owner :: 0 <= i < |ui| && owner in Owners(catalog, ui[i].menuKey) ==>
                    RegisteredBy(catalog, owner, ui[i]))
  {
    hide Sound, ResolveGrant, MergePages;
    GrantedPagesAreOriginal(catalog, word, config, fields);
    var grant := ResolveGrant(catalog, word, config, fields).value;
    MergedPagesAreOriginal(catalog, grant.ui);
    if Sound(catalog) {
      GrantLoops.SoundHasOneOwnerEach(catalog);
      hide AllOriginal, ResolveConfig;
      var ui := ResolveConfig(catalog, word, config, fields).value.ui;
      forall i, owner | 0 <= i < |ui| && owner in Owners(catalog, ui[i].menuKey)
        ensures RegisteredBy(catalog, owner, ui[i])
      {
        OnlyOwner(catalog, ui, i, owner);
      }
    }
  }
}
