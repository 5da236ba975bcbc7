/**
The actions an assignment is given grant together exactly what was requested.
*/
module AssignmentMeaning {
  import opened Options
  import opened ResourceCatalog
  import opened Grants
  import opened ActionConfig
  import opened Words
  import opened Ordering
  import opened ActionTable
  import opened ActionAssignment
  import opened ActionStore
  import opened GrantMeaning

  ghost predicate RequestedAllows(catalog: Catalog, binding: ResourceBinding, part: Part) {
    BindingAllows(catalog, Scope(binding.resourceKey), binding, None, part)
  }

  /** What an action with this configuration allows is what the binding grants. */
  ghost predicate SameGrant(catalog: Catalog, config: Config, binding: ResourceBinding, part: Part) {
    && (Unrestricted(config) <==> IsWildcard(catalog, binding))
    && (!Unrestricted(config) ==> (ConfigAllows(config, part) <==> RequestedAllows(catalog, binding, part)))
  }

  // One binding, whatever the order of its features

  /** The same features in another order allow the same. */
  lemma SameFeaturesAllow(catalog: Catalog, key: Key, operation: string, a: Option<seq<string>>,
                          b: Option<seq<string>>, part: Part)
    requires Operable(catalog, key, operation, a) && Operable(catalog, key, operation, b)
    requires var binding := catalog.resources[key].operations[operation];
             forall feature :: feature in Chosen(binding, a) <==> feature in Chosen(binding, b)
    ensures OperationAllows(catalog, key, operation, a, None, part) <==>
            OperationAllows(catalog, key, operation, b, None, part)
  {
    var binding := catalog.resources[key].operations[operation];
    var left, right := Chosen(binding, a), Chosen(binding, b);
    assert forall button :: SomePresses(catalog, left, button) <==> SomePresses(catalog, right, button);
  }

  lemma NormalizedAllowsTheSame(catalog: Catalog, binding: ResourceBinding, normal: ResourceBinding, part: Part)
    requires Normalize(catalog, binding) == Some(normal) && !IsWildcard(catalog, binding)
    ensures OperationAllows(catalog, normal.resourceKey, normal.operation, normal.featureKeys, None, part)
       <==> RequestedAllows(catalog, binding, part)
  {
    NormalIsOperable(catalog, binding, normal);
    SamePair(catalog, binding, normal);
    var features := Chosen(catalog.resources[binding.resourceKey].operations[binding.operation], binding.featureKeys);
    assert forall feature :: feature in normal.featureKeys.value <==> feature in features;
    hide OperationAllows, Allows, Normalize;
    SameFeaturesAllow(catalog, binding.resourceKey, binding.operation, binding.featureKeys, normal.featureKeys, part);
    OperationAllowsExactly(catalog, binding.resourceKey, binding.operation, binding.featureKeys, None, part);
  }

  lemma SameNormalSameGrant(catalog: Catalog, a: ResourceBinding, b: ResourceBinding, normal: ResourceBinding,
                            part: Part)
    requires Normalize(catalog, a) == Some(normal) && Normalize(catalog, b) == Some(normal)
    requires !IsWildcard(catalog, a)
    ensures RequestedAllows(catalog, a, part) <==> RequestedAllows(catalog, b, part)
  {
    SamePair(catalog, a, normal);
    SamePair(catalog, b, normal);
    hide Normalize, RequestedAllows;
    NormalizedAllowsTheSame(catalog, a, normal, part);
    NormalizedAllowsTheSame(catalog, b, normal, part);
  }

  // One action

  lemma SingleGrant(catalog: Catalog, word: string, config: Config, binding: ResourceBinding, part: Part)
    requires UpToDate(catalog, word, config) && ConfigBindings(config) == Some([binding])
    ensures Scope(binding.resourceKey) == Scope(word)
    ensures SameGrant(catalog, config, binding, part)
  {
    StoredBindingsAreOk(catalog, word, config);
    assert [binding][0] == binding;
    ValidBindingScope(word, [binding][0]);
    ExplicitIsNotAll(catalog, word, config);
    hide UpToDate, ResolveConfig, BindingAllows, ConfigAllows, IsWildcard, ConfigBindings, SameProjection;
    ConfigIsTheUnion(catalog, word, config, None, part);
    var resolved := ResolveConfig(catalog, word, config, None).value;
    assert forall other :: other in [binding] <==> other == binding;
    if resolved.permissionScope != "*" {
      SameProjectionAllows(config, resolved, part);
    }
  }

  lemma ExplicitIsNotAll(catalog: Catalog, word: string, config: Config)
    requires UpToDate(catalog, word, config) && ConfigBindings(config).Some?
    ensures config.builtin != "all" && ResolveConfig(catalog, word, config, None).Some?
    ensures var resolved := ResolveConfig(catalog, word, config, None).value;
            && config.permissionScope == resolved.permissionScope
            && (resolved.permissionScope != "*" ==> SameProjection(config, resolved))
  {
    hide ResolveConfig;
    assert config.builtin == "all" ==> ValidConfig(word, Stripped(config));
  }

  lemma ExplicitMatch(catalog: Catalog, signature: Signature, action: Action, requested: ResourceBinding,
                      normal: ResourceBinding, part: Part)
    requires Injective(signature) && UpToDate(catalog, action.word, action.config)
    requires ConfigBindings(action.config).Some? && Satisfies(catalog, signature, action, normal)
    requires Normalize(catalog, requested) == Some(normal)
    ensures SameGrant(catalog, action.config, requested, part)
  {
    var from := SatisfyingBinding(catalog, signature, action, normal);
    SamePair(catalog, requested, normal);
    assert IsWildcard(catalog, requested) <==> IsWildcard(catalog, from);
    hide UpToDate, ResolveBinding, Satisfies, Normalize, ConfigBindings, RequestedAllows;
    SingleGrant(catalog, action.word, action.config, from, part);
    if !IsWildcard(catalog, requested) {
      SameNormalSameGrant(catalog, from, requested, normal, part);
    }
  }

  lemma AllMatch(catalog: Catalog, signature: Signature, action: Action, requested: ResourceBinding,
                 normal: ResourceBinding, part: Part)
    requires Injective(signature)
    requires ConfigBindings(action.config).None? && action.config.builtin == "all" &&
             Satisfies(catalog, signature, action, normal)
    requires Normalize(catalog, requested) == Some(normal)
    ensures SameGrant(catalog, action.config, requested, part)
  {
    var keys := WildcardKeys(catalog, Scope(action.word));
    assert [normal][0] == normal;
    var from := OnlyFromRequest(catalog, signature, [ResourceBinding(keys[0], "*", Some([]))], normal);
    assert keys[0] in keys;
    SamePair(catalog, requested, normal);
    SamePair(catalog, from, normal);
  }

  lemma DefaultIsOneReading(catalog: Catalog, signature: Signature, action: Action, normal: ResourceBinding)
    returns (key: Key, from: ResourceBinding)
    requires Injective(signature) && Satisfies(catalog, signature, action, normal)
    requires ConfigBindings(action.config).None? && action.config.builtin != "all"
    ensures action.config.builtin == "default" && action.config.resourceKeys == Some([key])
    ensures from == ReadBindings(catalog, [key], action.config.featureKeys)[0] &&
            Normalize(catalog, from) == Some(normal)
  {
    hide Normalize, Assignable;
    var keys := action.config.resourceKeys.value;
    var readings := ReadBindings(catalog, keys, action.config.featureKeys);
    NormalizedCounts(catalog, signature, readings);
    assert |[normal]| == 1 && [normal][0] == normal;
    ReadBindingsCount(catalog, keys, action.config.featureKeys);
    key := keys[0];
    assert keys == [key] && readings == [readings[0]];
    from := OnlyFromRequest(catalog, signature, readings, normal);
  }

  lemma DefaultMatch(catalog: Catalog, signature: Signature, action: Action, requested: ResourceBinding,
                     normal: ResourceBinding, part: Part)
    requires Injective(signature) && UpToDate(catalog, action.word, action.config)
    requires ConfigBindings(action.config).None? && action.config.builtin != "all" &&
             Satisfies(catalog, signature, action, normal)
    requires Normalize(catalog, requested) == Some(normal)
    ensures SameGrant(catalog, action.config, requested, part)
  {
    var key, from := DefaultIsOneReading(catalog, signature, action, normal);
    SamePair(catalog, requested, normal);
    SamePair(catalog, from, normal);
    DefaultAllows(catalog, action.word, action.config, key, part);
    hide UpToDate, Satisfies, Normalize, ConfigBindings, ResolveBinding, ReadBindings;
    SameNormalSameGrant(catalog, from, requested, normal, part);
  }

  lemma {:induction false} ReadBindingsCount(catalog: Catalog, keys: seq<Key>, selected: Option<seq<string>>)
    ensures |ReadBindings(catalog, keys, selected)| == |keys|
  {
    if keys != [] {
      ReadBindingsCount(catalog, keys[1..], selected);
    }
  }

  /** The default selection of one resource allows what reading it allows. */
  lemma DefaultAllows(catalog: Catalog, word: string, config: Config, key: Key, part: Part)
    requires UpToDate(catalog, word, config) && ConfigBindings(config).None? && config.builtin == "default"
    requires config.resourceKeys == Some([key])
    ensures config.permissionScope == ""
    ensures var from := ReadBindings(catalog, [key], config.featureKeys)[0];
            && from.operation == "read"
            && (ConfigAllows(config, part) <==> RequestedAllows(catalog, from, part))
  {
    DefaultProjection(catalog, word, config, part);
    hide UpToDate, ConfigBindings, ResolveEach, ConfigAllows;
    OneReading(catalog, Scope(word), key, config.featureKeys, part);
  }

  lemma OneReading(catalog: Catalog, scope: string, key: Key, selected: Option<seq<string>>, part: Part)
    requires Selectable(catalog, scope, [key], selected) && ':' !in scope
    ensures var from := ReadBindings(catalog, [key], selected)[0];
            var grant := ResolveEach(catalog, ReadRequests(catalog, [key], selected), None);
            && from.operation == "read"
            && (grant.Some? ==>
                  grant.value.permissionScope == "" &&
                      (Allows(grant.value, part) <==> RequestedAllows(catalog, from, part)))
  {
    var from := ReadBindings(catalog, [key], selected)[0];
    assert [key][0] == key && [key][1..] == [];
    ScopeIsThePrefix(key, scope);
    var request := Request(key, "read", from.featureKeys);
    assert ReadRequests(catalog, [key], selected) == [request];
    hide Selectable, ReadRequests, ReadBindings, Allows;
    EachIsTheUnion(catalog, [request], None, part);
    hide ResolveOperation, ResolveEach;
    assert forall other :: other in [request] <==> other == request;
    assert RequestAllows(catalog, request, None, part) <==> RequestedAllows(catalog, from, part);
  }

  /** An action that satisfies a normalized binding grants what was requested, however it is stored. */
  lemma MatchGrantsTheRequest(catalog: Catalog, signature: Signature, action: Action, requested: ResourceBinding,
                              normal: ResourceBinding,
                              part: Part)
    requires Injective(signature) && UpToDate(catalog, action.word, action.config)
    requires Satisfies(catalog, signature, action, normal) && Normalize(catalog, requested) == Some(normal)
    ensures SameGrant(catalog, action.config, requested, part)
  {
    if ConfigBindings(action.config).Some? {
      ExplicitMatch(catalog, signature, action, requested, normal, part);
    } else if action.config.builtin == "all" {
      AllMatch(catalog, signature, action, requested, normal, part);
    } else {
      DefaultMatch(catalog, signature, action, requested, normal, part);
    }
  }

  ghost predicate CodeAllows(rows: Rows, codes: seq<string>, id: Id, part: Part) {
    id in rows && rows[id].code in codes && !Unrestricted(rows[id].config) && ConfigAllows(rows[id].config, part)
  }

  ghost predicate CodeUnrestricted(rows: Rows, codes: seq<string>, id: Id) {
    id in rows && rows[id].code in codes && Unrestricted(rows[id].config)
  }

  ghost predicate AsksFor(catalog: Catalog, bindings: seq<ResourceBinding>, binding: ResourceBinding, part: Part) {
    binding in bindings && !IsWildcard(catalog, binding) && RequestedAllows(catalog, binding, part)
  }

  /** The action behind the n-th code. */
  lemma RowOfCode(definitions: Definitions, signature: Signature, rows: Rows, bindings: seq<ResourceBinding>,
                  codes: seq<string>, n: nat,
                  requested: ResourceBinding, part: Part) returns (id: Id)
    requires Injective(signature) && Consistent(definitions, rows)
    requires Assigned(definitions.catalog, signature, rows, bindings, codes) && n < |codes|
    requires Normalize(definitions.catalog, requested) ==
        Some(Normalized(definitions.catalog, signature, bindings).value[n])
    ensures id in rows && rows[id].code == codes[n]
    ensures SameGrant(definitions.catalog, rows[id].config, requested, part)
  {
    var normal := Normalized(definitions.catalog, signature, bindings).value[n];
    id := FirstIsASatisfyingRow(definitions.catalog, signature, rows, SortedIds(rows), normal);
    assert Current(definitions, rows[id]);
    hide SameGrant, Satisfies, Normalize, Normalized, UpToDate, Assigned;
    MatchGrantsTheRequest(definitions.catalog, signature, rows[id], requested, normal, part);
  }

  lemma PositionOfRequest(catalog: Catalog, signature: Signature, bindings: seq<ResourceBinding>,
                          binding: ResourceBinding) returns (n: nat)
    requires Injective(signature) && Normalized(catalog, signature, bindings).Some? && binding in bindings
    ensures n < |Normalized(catalog, signature, bindings).value|
    ensures Normalize(catalog, binding) == Some(Normalized(catalog, signature, bindings).value[n])
  {
    hide Normalize;
    var i :| 0 <= i < |bindings| && bindings[i] == binding;
    assert Normalize(catalog, bindings[i]).Some?;
    var normal := Normalize(catalog, binding).value;
    assert normal in NormalSet(catalog, bindings);
    var normalized := Normalized(catalog, signature, bindings).value;
    n :| n < |normalized| && normalized[n] == normal;
  }

  /** Every assigned action answers some requested binding. */
  lemma RequestOfRow(definitions: Definitions, signature: Signature, rows: Rows, bindings: seq<ResourceBinding>,
                     codes: seq<string>,
                     id: Id, part: Part) returns (requested: ResourceBinding)
    requires Injective(signature) && Consistent(definitions, rows)
    requires Assigned(definitions.catalog, signature, rows, bindings, codes) && id in rows && rows[id].code in codes
    ensures requested in bindings && SameGrant(definitions.catalog, rows[id].config, requested, part)
  {
    hide SameGrant, Normalize, Current, FirstMatch;
    var n :| 0 <= n < |codes| && codes[n] == rows[id].code;
    requested := OnlyFromRequest(definitions.catalog, signature, bindings,
                                 Normalized(definitions.catalog, signature, bindings).value[n]);
    var answer := RowOfCode(definitions, signature, rows, bindings, codes, n, requested, part);
    assert answer == id;
  }

  /** Every requested binding is answered by some assigned action. */
  lemma RowOfRequest(definitions: Definitions, signature: Signature, rows: Rows, bindings: seq<ResourceBinding>,
                     codes: seq<string>,
                     requested: ResourceBinding, part: Part) returns (id: Id)
    requires Injective(signature) && Consistent(definitions, rows)
    requires Assigned(definitions.catalog, signature, rows, bindings, codes) && requested in bindings
    ensures id in rows && rows[id].code in codes && SameGrant(definitions.catalog, rows[id].config, requested, part)
  {
    hide SameGrant, Normalize, Current, FirstMatch, Consistent;
    var n := PositionOfRequest(definitions.catalog, signature, bindings, requested);
    id := RowOfCode(definitions, signature, rows, bindings, codes, n, requested, part);
  }

  /** Together the assigned actions allow exactly what the request asks for - every endpoint, page, page entry, button
      and listed scope - and one of them is unrestricted exactly when the request names a wildcard. */
  lemma AssignedGrantsTheRequest(definitions: Definitions, signature: Signature, rows: Rows,
                                 bindings: seq<ResourceBinding>,
                                 codes: seq<string>, part: Part)
    requires Injective(signature) && Consistent(definitions, rows)
    requires Assigned(definitions.catalog, signature, rows, bindings, codes)
    ensures (exists id :: CodeAllows(rows, codes, id, part)) <==>
                                  (exists binding :: AsksFor(definitions.catalog, bindings, binding, part))
    ensures (exists id :: CodeUnrestricted(rows, codes, id))
       <==> (exists binding :: binding in bindings && IsWildcard(definitions.catalog, binding))
  {
    hide Assigned, Consistent, Unrestricted, IsWildcard, RequestedAllows, ConfigAllows;
    if id :| CodeAllows(rows, codes, id, part) {
      var requested := RequestOfRow(definitions, signature, rows, bindings, codes, id, part);
      assert AsksFor(definitions.catalog, bindings, requested, part);
    }
    if requested :| AsksFor(definitions.catalog, bindings, requested, part) {
      var id := RowOfRequest(definitions, signature, rows, bindings, codes, requested, part);
      assert CodeAllows(rows, codes, id, part);
    }
    if id :| CodeUnrestricted(rows, codes, id) {
      var requested := RequestOfRow(definitions, signature, rows, bindings, codes, id, part);
    }
    if requested :| requested in bindings && IsWildcard(definitions.catalog, requested) {
      var id := RowOfRequest(definitions, signature, rows, bindings, codes, requested, part);
      assert CodeUnrestricted(rows, codes, id);
    }
  }

  // Which actions match

  /** A normalized binding lists its features in ascending order, without repetition. */
  predicate Ascending(features: seq<string>) {
    forall i, j :: 0 <= i < j < |features| ==> features[i] != features[j] && StringBelow(features[i], features[j])
  }

  /** A requested binding is taken if it is well formed and operates, and then with its features in order. */
  lemma NormalizedMeans(catalog: Catalog, binding: ResourceBinding)
    ensures var scope, normal := Scope(binding.resourceKey), Normalize(catalog, binding);
            && (normal.Some? <==>
                  && ValidResourceBinding(scope + ":read:assignment:resource", binding)
                  && BindingOperates(catalog, scope, binding))
            && (normal.Some? ==>
                  && normal.value.resourceKey == binding.resourceKey && normal.value.operation == binding.operation
                  && normal.value.featureKeys.Some? && Ascending(normal.value.featureKeys.value)
                  && forall feature :: feature in normal.value.featureKeys.value <==>
                       if binding.featureKeys.Some? then feature in binding.featureKeys.value
                       else && binding.resourceKey in catalog.resources
                            && binding.operation in catalog.resources[binding.resourceKey].operations
                            && feature in
                                  catalog.resources[binding.resourceKey].operations[binding.operation].buttonKeys)
  {
    hide ValidResourceBinding, BindingOperates, ResolveBinding;
    BindingResolvesExactly(catalog, Scope(binding.resourceKey), binding, None);
    var features := if binding.featureKeys.Some? then binding.featureKeys.value
                    else RegisteredFeatures(catalog, binding.resourceKey, binding.operation);
    StringOrder();
    forall i, j | 0 <= i < j < |SortedStrings(ElementsOf(features))|
      ensures SortedStrings(ElementsOf(features))[i] != SortedStrings(ElementsOf(features))[j]
      ensures StringBelow(SortedStrings(ElementsOf(features))[i], SortedStrings(ElementsOf(features))[j])
    {
      SortedAscends(StringBelow, ElementsOf(features), i, j);
    }
  }

  /** A resource that stands for everything in its scope. */
  predicate StandsForAll(catalog: Catalog, scope: string, key: Key) {
    && key in catalog.resources && InScope(key, scope)
    && catalog.resources[key].kind == "resource" && catalog.resources[key].permissionScope == "*"
  }

  /** The one binding that the whole configuration of an action consists of. */
  ghost predicate Sole(catalog: Catalog, action: Action, from: ResourceBinding) {
    var config := action.config;
    if ConfigBindings(config).Some? then ConfigBindings(config).value == [from]
    else if config.builtin == "all" then
      && from.operation == "*" && from.featureKeys == Some([])
      && StandsForAll(catalog, Scope(action.word), from.resourceKey)
      && forall other :: StandsForAll(catalog, Scope(action.word), other) ==> StringBelow(from.resourceKey, other)
    else
      && config.builtin == "default" && config.resourceKeys == Some([from.resourceKey])
      && from.operation == "read"
      && from.featureKeys == if config.featureKeys.None? then None
                             else Some(Keep(feature => feature in config.featureKeys.value,
                                            RegisteredFeatures(catalog, from.resourceKey, "read")))
  }

  lemma OneNormal(catalog: Catalog, signature: Signature, bindings: seq<ResourceBinding>, normal: ResourceBinding)
    requires Injective(signature)
    ensures Normalized(catalog, signature, bindings) == Some([normal]) <==>
            |bindings| == 1 && Normalize(catalog, bindings[0]) == Some(normal)
  {
    hide Normalize;
    SignatureOrder(signature);
    if Normalized(catalog, signature, bindings) == Some([normal]) {
      NormalizedCounts(catalog, signature, bindings);
      assert |[normal]| == 1;
    }
    if |bindings| == 1 && Normalize(catalog, bindings[0]).Some? {
      var only := Normalize(catalog, bindings[0]).value;
      assert NormalSet(catalog, bindings) == {only};
      SortedSingle(BySignature(signature), only);
      assert [only][0] == only && [normal][0] == normal;
    }
  }

  lemma LeastStandsForAll(catalog: Catalog, scope: string)
    ensures var keys := WildcardKeys(catalog, scope);
            && (keys == [] ==> forall key :: !StandsForAll(catalog, scope, key))
            && (keys != [] ==>
                  && StandsForAll(catalog, scope, keys[0])
                  && forall key :: StandsForAll(catalog, scope, key) ==> StringBelow(keys[0], key))
  {
    StringOrder();
    var all := set key | key in catalog.resources && InScope(key, scope) &&
                         catalog.resources[key].kind == "resource" && catalog.resources[key].permissionScope == "*";
    var keys := WildcardKeys(catalog, scope);
    forall key | StandsForAll(catalog, scope, key) ensures key in keys {
      assert key in all;
    }
    if keys != [] {
      assert keys[0] in keys && IsLeast(StringBelow, all, keys[0]);
    }
  }

  /** An action matches a normalized binding exactly if it consists of one binding that normalizes to it. */
  lemma SatisfiesExactly(catalog: Catalog, signature: Signature, action: Action, normal: ResourceBinding)
    requires Injective(signature)
    ensures Satisfies(catalog, signature, action, normal) <==>
            exists from :: Sole(catalog, action, from) && Normalize(catalog, from) == Some(normal)
  {
    hide Normalize, Normalized, StandsForAll;
    var config := action.config;
    if ConfigBindings(config).Some? {
      var bindings := ConfigBindings(config).value;
      OneNormal(catalog, signature, bindings, normal);
      if |bindings| == 1 {
        assert bindings == [bindings[0]];
        assert forall from: ResourceBinding :: [from][0] == from;
      }
    } else if config.builtin == "all" {
      AllConsistsOf(catalog, signature, action, normal);
    } else if config.builtin == "default" && config.resourceKeys.Some? {
      DefaultConsistsOf(catalog, signature, action, normal);
    }
  }

  lemma AllConsistsOf(catalog: Catalog, signature: Signature, action: Action, normal: ResourceBinding)
    requires Injective(signature) && ConfigBindings(action.config).None? && action.config.builtin == "all"
    ensures Satisfies(catalog, signature, action, normal) <==>
            exists from :: Sole(catalog, action, from) && Normalize(catalog, from) == Some(normal)
  {
    hide Normalize, Normalized, StandsForAll;
    var scope := Scope(action.word);
    var keys := WildcardKeys(catalog, scope);
    LeastStandsForAll(catalog, scope);
    hide WildcardKeys;
    if keys != [] {
      var least := ResourceBinding(keys[0], "*", Some([]));
      OneNormal(catalog, signature, [least], normal);
      assert Sole(catalog, action, least);
      forall from | Sole(catalog, action, from) ensures from == least {
        StringBelowAntisymmetric(from.resourceKey, keys[0]);
      }
    }
  }

  lemma DefaultConsistsOf(catalog: Catalog, signature: Signature, action: Action, normal: ResourceBinding)
    requires Injective(signature) && ConfigBindings(action.config).None? && action.config.builtin == "default"
    requires action.config.resourceKeys.Some?
    ensures Satisfies(catalog, signature, action, normal) <==>
            exists from :: Sole(catalog, action, from) && Normalize(catalog, from) == Some(normal)
  {
    hide Normalize, Normalized, RegisteredFeatures;
    var keys, selected := action.config.resourceKeys.value, action.config.featureKeys;
    var bindings := ReadBindings(catalog, keys, selected);
    ReadBindingsCount(catalog, keys, selected);
    OneNormal(catalog, signature, bindings, normal);
    if |keys| == 1 {
      assert keys == [keys[0]];
      assert Sole(catalog, action, bindings[0]);
      forall from | Sole(catalog, action, from) ensures from == bindings[0] {
        assert [from.resourceKey][0] == from.resourceKey;
      }
    }
  }

  ghost predicate Matching(catalog: Catalog, signature: Signature, rows: Rows, id: Id, binding: ResourceBinding)
    requires Injective(signature)
  {
    id in rows && Satisfies(catalog, signature, rows[id], binding)
  }

  lemma {:induction false} FirstInOrder(catalog: Catalog, signature: Signature, rows: Rows, ids: seq<Id>,
                                        binding: ResourceBinding)
    requires Injective(signature) && forall id :: id in ids ==> id in rows
    requires forall i, j :: 0 <= i < j < |ids| ==> ids[i].number <= ids[j].number
    ensures match First(catalog, signature, rows, ids, binding)
            case None => forall id :: id in ids ==> !Matching(catalog, signature, rows, id, binding)
            case Some(code) =>
              exists id :: id in ids && Matching(catalog, signature, rows, id, binding) && rows[id].code == code &&
                           forall other :: other in ids && Matching(catalog, signature, rows, other, binding) ==>
                             id.number <= other.number
  {
    hide Satisfies;
    if ids != [] {
      assert ids == [ids[0]] + ids[1..] && ids[0] in ids;
      if Matching(catalog, signature, rows, ids[0], binding) {
        forall other | other in ids ensures ids[0].number <= other.number {
          var j :| 0 <= j < |ids| && ids[j] == other;
        }
      } else {
        FirstInOrder(catalog, signature, rows, ids[1..], binding);
      }
    }
  }

  /** A binding is given the code of the oldest action that matches it, and none exactly when no action does. */
  lemma OldestMatches(catalog: Catalog, signature: Signature, rows: Rows, binding: ResourceBinding)
    requires Injective(signature)
    ensures match FirstMatch(catalog, signature, rows, binding)
            case None => forall id :: !Matching(catalog, signature, rows, id, binding)
            case Some(code) =>
              exists id :: Matching(catalog, signature, rows, id, binding) && rows[id].code == code &&
                           forall other :: Matching(catalog, signature, rows, other, binding) ==>
                             id.number <= other.number
  {
    hide Satisfies, First;
    var ids := SortedIds(rows);
    forall i, j | 0 <= i < j < |ids| ensures ids[i].number <= ids[j].number {
      IdOrder();
      SortedAscends(Older, rows.Keys, i, j);
    }
    FirstInOrder(catalog, signature, rows, ids, binding);
  }
}
