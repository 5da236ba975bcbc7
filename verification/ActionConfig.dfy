/**
Stored action configurations: resolution of their selection into the pages and
endpoints kept beside it.
*/
module ActionConfig {
  import opened Options
  import opened ResourceCatalog
  import opened Ordering
  import opened Grants
  import opened Words
  import BindingMerge

  /** The first six fields are the selection, the last four its projection. */
  datatype Config = Config(
    bindings: Option<seq<ResourceBinding>>,
    resourceKey: string,
    operation: string,
    builtin: string,
    featureKeys: Option<seq<string>>,
    resourceKeys: Option<seq<string>>,
    permissionScopes: seq<string>,
    permissionScope: string,
    ui: seq<UiBinding>,
    endpoints: seq<Endpoint>)

  function ConfigBindings(config: Config): Option<seq<ResourceBinding>> {
    if config.bindings.Some? then config.bindings
    else if config.resourceKey != "" || config.operation != "" then
      Some([ResourceBinding(config.resourceKey, config.operation, config.featureKeys)])
    else None
  }

  predicate BothForms(config: Config) {
    config.bindings.Some? && (config.resourceKey != "" || config.operation != "")
  }

  predicate BindingsOk(word: string, bindings: seq<ResourceBinding>) {
    && (forall i :: 0 <= i < |bindings| ==> ValidResourceBinding(word, bindings[i]))
    && (forall i, j :: 0 <= i < j < |bindings| ==>
                       BindingMerge.Identity(bindings[i]) != BindingMerge.Identity(bindings[j]))
  }

  function ResolveBindings(catalog: Catalog, scope: string, bindings: seq<ResourceBinding>,
                           fields: Fields): Option<Grant>
  {
    if bindings == [] then Some(NoGrant)
    else
      var last := bindings[|bindings| - 1];
      var before := ResolveBindings(catalog, scope, bindings[..|bindings| - 1], fields);
      var resolved := ResolveBinding(catalog, scope, last.resourceKey, last.operation, last.featureKeys, fields);
      if before.None? || resolved.None? then None else Some(Join(before.value, resolved.value))
  }

  function ResolveBuiltin(catalog: Catalog, scope: string, config: Config, fields: Fields): Option<Grant> {
    if config.builtin == "default" && config.resourceKeys.Some? then
      ResolveResources(catalog, scope, config.resourceKeys.value, config.featureKeys, fields)
    else if config.builtin == "all" then ResolveAll(catalog, scope, fields)
    else None
  }

  /** What the selection grants before pages and endpoints are merged. */
  function ResolveGrant(catalog: Catalog, word: string, config: Config, fields: Fields): Option<Grant> {
    if !ValidWord(word) then None
    else
      var bindings := ConfigBindings(config);
      if bindings.Some? then
        if config.builtin != "" || BothForms(config) || !BindingsOk(word, bindings.value) then None
        else ResolveBindings(catalog, Scope(word), bindings.value, fields)
      else ResolveBuiltin(catalog, Scope(word), config, fields)
  }

  function Position(ui: seq<UiBinding>, menuKey: string): (at: nat)
    ensures at <= |ui|
    ensures at < |ui| ==> ui[at].menuKey == menuKey
    ensures forall i :: 0 <= i < at ==> ui[i].menuKey != menuKey
  {
    if ui == [] || ui[0].menuKey == menuKey then 0 else 1 + Position(ui[1..], menuKey)
  }

  function Combine(entry: UiBinding, again: UiBinding): UiBinding {
    entry.(pageEntry := entry.pageEntry || again.pageEntry,
           buttonKeys := BindingMerge.AppendMissing(entry.buttonKeys, again.buttonKeys))
  }

  function AddPage(pages: seq<UiBinding>, entry: UiBinding): seq<UiBinding> {
    var at := Position(pages, entry.menuKey);
    if at < |pages| then pages[at := Combine(pages[at], entry)] else pages + [entry]
  }

  /** A page granted several times is shown once. */
  function MergePages(ui: seq<UiBinding>): seq<UiBinding> {
    if ui == [] then [] else AddPage(MergePages(ui[..|ui| - 1]), ui[|ui| - 1])
  }

  function Dedupe(seen: set<Endpoint>, endpoints: seq<Endpoint>): (distinct: seq<Endpoint>)
    ensures forall endpoint :: endpoint in distinct <==> endpoint in endpoints && endpoint !in seen
    ensures forall i, j :: 0 <= i < j < |distinct| ==> distinct[i] != distinct[j]
    decreases endpoints
  {
    if endpoints == [] then []
    else if endpoints[0] in seen then Dedupe(seen, endpoints[1..])
    else [endpoints[0]] + Dedupe(seen + {endpoints[0]}, endpoints[1..])
  }

  function Projection(config: Config, grant: Grant): Config {
    var explicit := ConfigBindings(config);
    Config(explicit, "", "", config.builtin, if explicit.Some? then None else config.featureKeys, config.resourceKeys,
           grant.permissionScopes, grant.permissionScope, MergePages(grant.ui), Dedupe({}, grant.endpoints))
  }

  function ResolveConfig(catalog: Catalog, word: string, config: Config, fields: Fields): Option<Config> {
    var grant := ResolveGrant(catalog, word, config, fields);
    if grant.None? then None else Some(Projection(config, grant.value))
  }

  ghost predicate PagesIndexed(pages: seq<UiBinding>, indices: map<string, nat>) {
    && (forall i :: 0 <= i < |pages| ==> pages[i].menuKey in indices && indices[pages[i].menuKey] == i)
    && (forall key :: key in indices ==> indices[key] < |pages| && pages[indices[key]].menuKey == key)
  }

  lemma NothingIndexed()
    ensures PagesIndexed([], map[])
  {
  }

  lemma PositionIsIndexed(pages: seq<UiBinding>, indices: map<string, nat>, menuKey: string)
    requires PagesIndexed(pages, indices)
    ensures Position(pages, menuKey) == if menuKey in indices then indices[menuKey] else |pages|
    ensures menuKey in indices ==> indices[menuKey] < |pages|
  {
    var at := Position(pages, menuKey);
    assert at < |pages| ==> pages[at].menuKey in indices;
    assert menuKey in indices ==> pages[indices[menuKey]].menuKey == menuKey;
  }

  lemma IndexedStays(pages: seq<UiBinding>, indices: map<string, nat>, entry: UiBinding)
    requires PagesIndexed(pages, indices)
    ensures if entry.menuKey in indices then PagesIndexed(AddPage(pages, entry), indices)
            else PagesIndexed(AddPage(pages, entry), indices[entry.menuKey := |pages|])
  {
    PositionIsIndexed(pages, indices, entry.menuKey);
  }

  method MergePageEntries(ui: seq<UiBinding>) returns (pages: seq<UiBinding>)
    ensures pages == MergePages(ui)
  {
    hide PagesIndexed;
    pages := [];
    var indices: map<string, nat> := map[];
    NothingIndexed();
    for n := 0 to |ui|
      invariant pages == MergePages(ui[..n]) && PagesIndexed(pages, indices)
    {
      var entry := ui[n];
      assert ui[..n + 1][..n] == ui[..n];
      PositionIsIndexed(pages, indices, entry.menuKey);
      IndexedStays(pages, indices, entry);
      if entry.menuKey in indices {
        var index := indices[entry.menuKey];
        var buttons := BindingMerge.AppendEach(pages[index].buttonKeys, entry.buttonKeys);
        pages := pages[index := pages[index].(pageEntry := pages[index].pageEntry ||
                                                           entry.pageEntry, buttonKeys := buttons)];
      } else {
        indices := indices[entry.menuKey := |pages|];
        pages := pages + [entry];
      }
    }
    assert ui[..|ui|] == ui;
  }

  lemma DedupeNext(seen: set<Endpoint>, endpoints: seq<Endpoint>, n: nat)
    requires n < |endpoints|
    ensures Dedupe(seen, endpoints[n..])
         == if endpoints[n] in seen then Dedupe(seen, endpoints[n + 1..])
            else [endpoints[n]] + Dedupe(seen + {endpoints[n]}, endpoints[n + 1..])
  {
    assert endpoints[n..][1..] == endpoints[n + 1..];
  }

  lemma NothingToDedupe(seen: set<Endpoint>)
    ensures Dedupe(seen, []) == []
  {
  }

  method DedupeEndpoints(endpoints: seq<Endpoint>) returns (distinct: seq<Endpoint>)
    ensures distinct == Dedupe({}, endpoints)
  {
    hide Dedupe;
    distinct := [];
    var seen: set<Endpoint> := {};
    assert endpoints[0..] == endpoints;
    for n := 0 to |endpoints|
      invariant distinct + Dedupe(seen, endpoints[n..]) == Dedupe({}, endpoints)
    {
      DedupeNext(seen, endpoints, n);
      if endpoints[n] !in seen {
        seen := seen + {endpoints[n]};
        distinct := distinct + [endpoints[n]];
      }
    }
    NothingToDedupe(seen);
    assert endpoints[|endpoints|..] == [] && distinct + [] == distinct;
  }

  /** The bindings one after the other, refusing the first that is malformed, repeated or unresolvable. */
  method ResolveExplicit(catalog: Catalog, word: string, bindings: seq<ResourceBinding>, fields: Fields)
    returns (grant: Option<Grant>)
    ensures grant == if BindingsOk(word, bindings) then ResolveBindings(catalog, Scope(word), bindings, fields)
        else None
  {
    hide BindingsOk, ResolveBindings, Seen;
    var joined := NoGrant;
    var seen: set<string> := {};
    NoBindingYet(catalog, word, bindings, fields);
    for n := 0 to |bindings|
      invariant Seen(bindings, n, seen) && BindingsOk(word, bindings[..n])
      invariant ResolveBindings(catalog, Scope(word), bindings[..n], fields) == Some(joined)
    {
      hide BindingMerge.Identity, ValidResourceBinding, ResolveBinding;
      var binding := bindings[n];
      var identity := BindingMerge.Identity(binding);
      OneMoreBinding(word, bindings, n, seen);
      if !ValidResourceBinding(word, binding) || identity in seen {
        return None;
      }
      seen := seen + {identity};
      NextResolution(catalog, Scope(word), bindings, n, fields);
      var resolved := ResolveBinding(catalog, Scope(word), binding.resourceKey, binding.operation,
                                     binding.featureKeys, fields);
      if resolved.None? {
        RefusedBinding(catalog, Scope(word), bindings, n, fields);
        return None;
      }
      joined := Join(joined, resolved.value);
    }
    assert bindings[..|bindings|] == bindings;
    grant := Some(joined);
  }

  ghost predicate Seen(bindings: seq<ResourceBinding>, n: nat, seen: set<string>)
    requires n <= |bindings|
  {
    && (forall i :: 0 <= i < n ==> BindingMerge.Identity(bindings[i]) in seen)
    && (forall identity :: identity in seen ==>
                                                exists i :: 0 <= i < n &&
                                                            BindingMerge.Identity(bindings[i]) == identity)
  }

  lemma NoBindingYet(catalog: Catalog, word: string, bindings: seq<ResourceBinding>, fields: Fields)
    ensures Seen(bindings, 0, {}) && BindingsOk(word, bindings[..0])
    ensures ResolveBindings(catalog, Scope(word), bindings[..0], fields) == Some(NoGrant)
  {
  }

  lemma OneMoreBinding(word: string, bindings: seq<ResourceBinding>, n: nat, seen: set<string>)
    requires n < |bindings| && Seen(bindings, n, seen) && BindingsOk(word, bindings[..n])
    ensures var identity := BindingMerge.Identity(bindings[n]);
            if ValidResourceBinding(word, bindings[n]) && identity !in seen then
              BindingsOk(word, bindings[..n + 1]) && Seen(bindings, n + 1, seen + {identity})
            else
              !BindingsOk(word, bindings)
  {
    hide ValidResourceBinding, BindingMerge.Identity;
    var next := bindings[..n + 1];
    assert forall i :: 0 <= i < n ==> next[i] == bindings[..n][i];
  }

  lemma NextResolution(catalog: Catalog, scope: string, bindings: seq<ResourceBinding>, n: nat, fields: Fields)
    requires n < |bindings|
    ensures var before := ResolveBindings(catalog, scope, bindings[..n], fields);
            var resolved := ResolveBinding(catalog, scope, bindings[n].resourceKey, bindings[n].operation,
                                           bindings[n].featureKeys, fields);
            ResolveBindings(catalog, scope, bindings[..n + 1], fields)
            == if before.None? || resolved.None? then None else Some(Join(before.value, resolved.value))
  {
    hide ResolveBinding;
    assert bindings[..n + 1][..n] == bindings[..n];
  }

  lemma {:induction false} RefusedBinding(catalog: Catalog, scope: string, bindings: seq<ResourceBinding>, n: nat,
                                          fields: Fields)
    requires n < |bindings|
    requires ResolveBinding(catalog, scope, bindings[n].resourceKey, bindings[n].operation, bindings[n].featureKeys,
                            fields).None?
    ensures ResolveBindings(catalog, scope, bindings, fields).None?
  {
    if n < |bindings| - 1 {
      RefusedBinding(catalog, scope, bindings[..|bindings| - 1], n, fields);
    }
  }

  method Resolve(catalog: Catalog, word: string, config: Config, fields: Fields) returns (resolved: Option<Config>)
    ensures resolved == ResolveConfig(catalog, word, config, fields)
  {
    hide ResolveAll, ResolveResources, ResolveBindings, ValidWord, BindingsOk, MergePages, Dedupe;
    if !ValidWord(word) { return None; }
    var bindings := ConfigBindings(config);
    var grant: Option<Grant>;
    if bindings.Some? {
      if config.builtin != "" || BothForms(config) { return None; }
      grant := ResolveExplicit(catalog, word, bindings.value, fields);
    } else {
      grant := ResolveBuiltin(catalog, Scope(word), config, fields);
    }
    if grant.None? { return None; }
    var pages := MergePageEntries(grant.value.ui);
    var endpoints := DedupeEndpoints(grant.value.endpoints);
    resolved := Some(Config(bindings, "", "", config.builtin, if bindings.Some? then None
                            else config.featureKeys, config.resourceKeys,
                            grant.value.permissionScopes, grant.value.permissionScope, pages, endpoints));
  }

  predicate UniquePages(ui: seq<UiBinding>) {
    forall i, j :: 0 <= i < j < |ui| ==> ui[i].menuKey != ui[j].menuKey
  }

  lemma {:induction false} MergedPagesAreUnique(ui: seq<UiBinding>)
    ensures UniquePages(MergePages(ui))
  {
    if ui != [] {
      MergedPagesAreUnique(ui[..|ui| - 1]);
    }
  }

  ghost predicate ShowsPage(ui: seq<UiBinding>, menuKey: string) {
    exists i :: 0 <= i < |ui| && ui[i].menuKey == menuKey
  }

  ghost predicate EntersPage(ui: seq<UiBinding>, menuKey: string) {
    exists i :: 0 <= i < |ui| && ui[i].menuKey == menuKey && ui[i].pageEntry
  }

  ghost predicate ShowsButton(ui: seq<UiBinding>, menuKey: string, button: string) {
    exists i :: 0 <= i < |ui| && ui[i].menuKey == menuKey && button in ui[i].buttonKeys
  }

  lemma AddedPage(pages: seq<UiBinding>, entry: UiBinding, menuKey: string, button: string)
    requires UniquePages(pages)
    ensures ShowsPage(AddPage(pages, entry), menuKey) <==> (ShowsPage(pages, menuKey) || entry.menuKey == menuKey)
    ensures EntersPage(AddPage(pages, entry), menuKey)
       <==> (EntersPage(pages, menuKey) || (entry.menuKey == menuKey && entry.pageEntry))
    ensures ShowsButton(AddPage(pages, entry), menuKey, button)
       <==> (ShowsButton(pages, menuKey, button) || (entry.menuKey == menuKey && button in entry.buttonKeys))
  {
    var next := AddPage(pages, entry);
    var at := Position(pages, entry.menuKey);
    assert at < |next| && next[at].menuKey == entry.menuKey;
    forall i | 0 <= i < |pages| ensures i < |next| && next[i].menuKey == pages[i].menuKey
                                        && (pages[i].pageEntry ==> next[i].pageEntry)
                                        && (button in pages[i].buttonKeys ==> button in next[i].buttonKeys) {
    }
  }

  /** Merging loses no page, no page entry and no button, and adds none. */
  lemma {:induction false} MergeKeepsEveryPage(ui: seq<UiBinding>, menuKey: string, button: string)
    ensures ShowsPage(MergePages(ui), menuKey) <==> ShowsPage(ui, menuKey)
    ensures EntersPage(MergePages(ui), menuKey) <==> EntersPage(ui, menuKey)
    ensures ShowsButton(MergePages(ui), menuKey, button) <==> ShowsButton(ui, menuKey, button)
  {
    if ui != [] {
      var before, last := ui[..|ui| - 1], ui[|ui| - 1];
      MergeKeepsEveryPage(before, menuKey, button);
      MergedPagesAreUnique(before);
      AddedPage(MergePages(before), last, menuKey, button);
      assert ui == before + [last];
      LastPage(before, last, menuKey, button);
    }
  }

  lemma LastPage(before: seq<UiBinding>, last: UiBinding, menuKey: string, button: string)
    ensures ShowsPage(before + [last], menuKey) <==> (ShowsPage(before, menuKey) || last.menuKey == menuKey)
    ensures EntersPage(before + [last], menuKey) <==>
            (EntersPage(before, menuKey) || (last.menuKey == menuKey && last.pageEntry))
    ensures ShowsButton(before + [last], menuKey, button)
       <==> (ShowsButton(before, menuKey, button) || (last.menuKey == menuKey && button in last.buttonKeys))
  {
    var ui := before + [last];
    assert ui[|before|] == last;
    assert forall i :: 0 <= i < |before| ==> ui[i] == before[i];
  }

  /** One entry per page and one row per endpoint. */
  lemma ResolvedIsUnique(catalog: Catalog, word: string, config: Config, fields: Fields)
    requires ResolveConfig(catalog, word, config, fields).Some?
    ensures var resolved := ResolveConfig(catalog, word, config, fields).value;
            && UniquePages(resolved.ui)
            && (forall i, j :: 0 <= i < j < |resolved.endpoints| ==> resolved.endpoints[i] != resolved.endpoints[j])
  {
    MergedPagesAreUnique(ResolveGrant(catalog, word, config, fields).value.ui);
  }

  /** The projection fields of the input never matter. */
  ghost predicate SameSelection(a: Config, b: Config) {
    && ConfigBindings(a) == ConfigBindings(b)
    && BothForms(a) == BothForms(b)
    && a.builtin == b.builtin
    && (ConfigBindings(a).None? ==> a.featureKeys == b.featureKeys && a.resourceKeys == b.resourceKeys)
  }

  lemma SelectionDecides(catalog: Catalog, word: string, a: Config, b: Config, fields: Fields)
    requires SameSelection(a, b)
    ensures ResolveGrant(catalog, word, a, fields) == ResolveGrant(catalog, word, b, fields)
  {
  }

  /** Resolving a resolved configuration gives it back. */
  lemma ResolveIsIdempotent(catalog: Catalog, word: string, config: Config, fields: Fields)
    requires ResolveConfig(catalog, word, config, fields).Some?
    ensures var resolved := ResolveConfig(catalog, word, config, fields).value;
            ResolveConfig(catalog, word, resolved, fields) == Some(resolved)
  {
    var resolved := ResolveConfig(catalog, word, config, fields).value;
    SelectionDecides(catalog, word, config, resolved, fields);
  }

  // Field selection

  lemma {:induction false} DedupeSelects(seen: set<Endpoint>, other: set<Endpoint>, endpoints: seq<Endpoint>,
                                         fields: Fields)
    requires forall endpoint :: InFields(fields)(endpoint) ==> (endpoint in seen <==> endpoint in other)
    ensures SelectEndpoints(Dedupe(seen, endpoints), fields) == Dedupe(other, SelectEndpoints(endpoints, fields))
    decreases endpoints
  {
    if endpoints != [] {
      var first, rest := endpoints[0], endpoints[1..];
      assert endpoints == [first] + rest;
      KeepFirst(InFields(fields), first, rest);
      assert SelectEndpoints(endpoints, fields)
          == (if InFields(fields)(first) then [first] + SelectEndpoints(rest, fields)
              else SelectEndpoints(rest, fields));
      if first in seen {
        DedupeSelects(seen, other, rest, fields);
        if InFields(fields)(first) {
          DedupeFirst(other, first, SelectEndpoints(rest, fields));
        }
      } else {
        KeepFirst(InFields(fields), first, Dedupe(seen + {first}, rest));
        if InFields(fields)(first) {
          DedupeSelects(seen + {first}, other + {first}, rest, fields);
          DedupeFirst(other, first, SelectEndpoints(rest, fields));
        } else {
          DedupeSelects(seen + {first}, other, rest, fields);
        }
      }
    }
  }

  lemma DedupeFirst(seen: set<Endpoint>, first: Endpoint, rest: seq<Endpoint>)
    ensures Dedupe(seen, [first] + rest) == if first in seen then Dedupe(seen, rest)
        else [first] + Dedupe(seen + {first}, rest)
  {
    assert ([first] + rest)[1..] == rest;
  }

  lemma {:induction false} BindingsSelectFields(catalog: Catalog, scope: string, bindings: seq<ResourceBinding>,
                                                fields: Fields)
    ensures ResolveBindings(catalog, scope, bindings, fields) ==
        Select(ResolveBindings(catalog, scope, bindings, None), fields)
  {
    if bindings != [] {
      var before, last := bindings[..|bindings| - 1], bindings[|bindings| - 1];
      BindingsSelectFields(catalog, scope, before, fields);
      BindingSelectsFields(catalog, scope, last.resourceKey, last.operation, last.featureKeys, fields);
      var left := ResolveBindings(catalog, scope, before, None);
      var right := ResolveBinding(catalog, scope, last.resourceKey, last.operation, last.featureKeys, None);
      if left.Some? && right.Some? {
        JoinSelectsFields(left.value, right.value, fields);
      }
    }
  }

  lemma GrantSelectsFields(catalog: Catalog, word: string, config: Config, fields: Fields)
    ensures ResolveGrant(catalog, word, config, fields) == Select(ResolveGrant(catalog, word, config, None), fields)
  {
    var bindings := ConfigBindings(config);
    if bindings.Some? {
      BindingsSelectFields(catalog, Scope(word), bindings.value, fields);
    } else {
      AllSelectsFields(catalog, Scope(word), fields);
      if config.resourceKeys.Some? {
        ResourcesSelectFields(catalog, Scope(word), config.resourceKeys.value, config.featureKeys, fields);
      }
    }
  }

  /** Resolving selected fields is projecting the full resolution, with the same refusals. */
  lemma ConfigSelectsFields(catalog: Catalog, word: string, config: Config, fields: Fields)
    ensures var full := ResolveConfig(catalog, word, config, None);
            ResolveConfig(catalog, word, config, fields)
            == if full.None? then None
               else Some(full.value.(ui := if HasField(fields, "ui") then full.value.ui else [],
                                     endpoints := SelectEndpoints(full.value.endpoints, fields)))
  {
    GrantSelectsFields(catalog, word, config, fields);
    var grant := ResolveGrant(catalog, word, config, None);
    if grant.Some? {
      DedupeSelects({}, {}, grant.value.endpoints, fields);
    }
  }

  // Stored configurations

  predicate UiOk(scope: string, ui: seq<UiBinding>) {
    && UniquePages(ui)
    && forall i :: 0 <= i < |ui| ==> PageOk(scope, ui[i])
  }

  predicate PageOk(scope: string, page: UiBinding) {
    && ValidUiKey(page.menuKey, scope, "menu")
    && ValidPath(page.menuPath, false)
    && (page.parentMenuKey != "" ==>
        ValidUiKey(page.parentMenuKey, scope, "menu") && page.parentMenuKey != page.menuKey)
    && (forall i :: 0 <= i < |page.buttonKeys| ==> ValidUiKey(page.buttonKeys[i], scope, "btn"))
    && (forall i, j :: 0 <= i < j < |page.buttonKeys| ==> page.buttonKeys[i] != page.buttonKeys[j])
  }

  predicate EndpointOk(endpoint: Endpoint) {
    && ValidPath(endpoint.path, true)
    && ( || (endpoint.protocol == "http" &&
             endpoint.method_ in ["GET", "POST", "PUT", "PATCH", "DELETE", "HEAD", "OPTIONS"])
         || (endpoint.protocol == "grpc" && endpoint.method_ == "GRPC" && !ContainsAny(endpoint.path, "{}:")))
  }

  predicate ValidConfig(word: string, config: Config) {
    && ValidWord(word)
    && var bindings := ConfigBindings(config);
       && (config.builtin != "") == bindings.None?
       && !BothForms(config)
       && (bindings.Some? ==> BindingsOk(word, bindings.value))
       && (config.resourceKeys.Some? ==> config.builtin == "default")
       && config.builtin in ["", "all", "default"]
       && (config.builtin != "" ==> Split(word, ':')[1] == config.builtin)
       && UiOk(Split(word, ':')[0], config.ui)
       && forall i :: 0 <= i < |config.endpoints| ==> EndpointOk(config.endpoints[i])
  }

  /** Unrestricted configurations keep no pages or endpoints. */
  function Stripped(config: Config): Config {
    config.(ui := [], endpoints := [])
  }

  function ResolveStored(catalog: Catalog, word: string, config: Config): Option<Config> {
    if config.builtin == "all" then
      if ValidConfig(word, Stripped(config)) then Some(Stripped(config)) else None
    else
      var resolved := ResolveConfig(catalog, word, config, None);
      if resolved.None? then None
      else
        var stored := if resolved.value.permissionScope == "*" then Stripped(resolved.value) else resolved.value;
        if ValidConfig(word, stored) then Some(stored) else None
  }

  predicate SameProjection(a: Config, b: Config) {
    && a.ui == b.ui
    && a.endpoints == b.endpoints
    && a.permissionScope == b.permissionScope
    && a.permissionScopes == b.permissionScopes
  }

  /** The projection kept beside a selection is the one the catalog gives. */
  predicate UpToDate(catalog: Catalog, word: string, config: Config) {
    var resolved := ResolveStored(catalog, word, config);
    resolved.Some? && SameProjection(config, resolved.value)
  }

  function WithProjection(config: Config, projected: Config): Config {
    config.(ui := projected.ui, endpoints := projected.endpoints,
            permissionScope := projected.permissionScope, permissionScopes := projected.permissionScopes)
  }

  /** A resolved configuration is up to date when it is stored. */
  lemma ResolvedIsUpToDate(catalog: Catalog, word: string, config: Config)
    requires ResolveStored(catalog, word, config).Some?
    ensures UpToDate(catalog, word, ResolveStored(catalog, word, config).value)
  {
    var stored := ResolveStored(catalog, word, config).value;
    if config.builtin != "all" {
      SelectionDecides(catalog, word, config, stored, None);
    }
  }

  /** Writing only the projection back beside the stored selection brings it up to date. */
  lemma ProjectedIsUpToDate(catalog: Catalog, word: string, config: Config)
    requires ResolveStored(catalog, word, config).Some?
    ensures UpToDate(catalog, word, WithProjection(config, ResolveStored(catalog, word, config).value))
  {
    var projected := WithProjection(config, ResolveStored(catalog, word, config).value);
    if config.builtin != "all" {
      SelectionDecides(catalog, word, config, projected, None);
    }
  }
}
