/**
Assignments name resource selections; each one is satisfied by exactly one
stored action.
*/
module ActionAssignment {
  import opened Options
  import opened ResourceCatalog
  import opened Ordering
  import opened Grants
  import opened Words
  import opened ActionConfig
  import opened ActionTable
  import BindingMerge

  /** Any injective encoding of a binding as text. */
  type Signature = ResourceBinding -> string

  ghost predicate Injective(signature: Signature) {
    forall a, b :: signature(a) == signature(b) ==> a == b
  }

  function BySignature(signature: Signature): (ResourceBinding, ResourceBinding) -> bool {
    (a: ResourceBinding, b: ResourceBinding) => StringBelow(signature(a), signature(b))
  }

  lemma SignatureOrder(signature: Signature)
    requires Injective(signature)
    ensures TotalOrder(BySignature(signature))
  {
    var le := BySignature(signature);
    forall a, b ensures Comparable(le, a, b) {
      StringBelowTotal(signature(a), signature(b));
    }
    forall a, b ensures Antisymmetric(le, a, b) {
      if le(a, b) && le(b, a) {
        StringBelowAntisymmetric(signature(a), signature(b));
      }
    }
    forall a, b, c ensures Transitive(le, a, b, c) {
      if le(a, b) && le(b, c) {
        StringBelowTransitive(signature(a), signature(b), signature(c));
      }
    }
  }

  function RegisteredFeatures(catalog: Catalog, key: Key, operation: string): seq<string> {
    if key in catalog.resources && operation in catalog.resources[key].operations
    then catalog.resources[key].operations[operation].buttonKeys else []
  }

  function ElementsOf(items: seq<string>): set<string> {
    set item | item in items
  }

  /** One requested binding with its features listed in order. */
  function Normalize(catalog: Catalog, binding: ResourceBinding): Option<ResourceBinding> {
    var scope := Scope(binding.resourceKey);
    if !ValidResourceBinding(scope + ":read:assignment:resource", binding) then None
    else if ResolveBinding(catalog, scope, binding.resourceKey, binding.operation, binding.featureKeys, None).None?
        then None
    else
      var features := if binding.featureKeys.Some? then binding.featureKeys.value
                      else RegisteredFeatures(catalog, binding.resourceKey, binding.operation);
      Some(binding.(featureKeys := Some(SortedStrings(ElementsOf(features)))))
  }

  predicate Assignable(catalog: Catalog, bindings: seq<ResourceBinding>) {
    && (forall i :: 0 <= i < |bindings| ==> Normalize(catalog, bindings[i]).Some?)
    && (forall i, j :: 0 <= i < j < |bindings| ==>
                       BindingMerge.Identity(bindings[i]) != BindingMerge.Identity(bindings[j]))
  }

  function NormalSet(catalog: Catalog, bindings: seq<ResourceBinding>): set<ResourceBinding> {
    set binding | binding in bindings && Normalize(catalog, binding).Some? :: Normalize(catalog, binding).value
  }

  /** The request in a fixed order. */
  function Normalized(catalog: Catalog, signature: Signature,
                      bindings: seq<ResourceBinding>): Option<seq<ResourceBinding>>
    requires Injective(signature)
  {
    SignatureOrder(signature);
    if !Assignable(catalog, bindings) then None else Some(Sorted(BySignature(signature), NormalSet(catalog, bindings)))
  }

  /** The n-th binding joins what was normalized before, or refuses the whole request. */
  lemma OneMoreNormal(catalog: Catalog, bindings: seq<ResourceBinding>, n: nat, seen: set<string>)
    requires n < |bindings| && Assignable(catalog, bindings[..n])
    requires forall identity :: identity in seen <==>
                                  exists i :: 0 <= i < n && BindingMerge.Identity(bindings[i]) == identity
    ensures var identity := BindingMerge.Identity(bindings[n]);
            var normal := Normalize(catalog, bindings[n]);
            if normal.None? || identity in seen then !Assignable(catalog, bindings)
            else
              && Assignable(catalog, bindings[..n + 1])
              && NormalSet(catalog, bindings[..n + 1]) == NormalSet(catalog, bindings[..n]) + {normal.value}
              && forall other :: other in seen + {identity} <==>
                                            exists i :: 0 <= i < n + 1 && BindingMerge.Identity(bindings[i]) == other
  {
    hide Normalize, BindingMerge.Identity;
    assert bindings[..n + 1] == bindings[..n] + [bindings[n]];
    assert forall i :: 0 <= i < n ==> bindings[..n][i] == bindings[i];
    assert forall i :: 0 <= i <= n ==> bindings[..n + 1][i] == bindings[i];
  }

  method NormalizeRequest(catalog: Catalog, signature: Signature, bindings: seq<ResourceBinding>)
    returns (result: Option<seq<ResourceBinding>>)
    requires Injective(signature)
    ensures result == Normalized(catalog, signature, bindings)
  {
    hide Normalize, BindingMerge.Identity, NormalSet;
    var collected: set<ResourceBinding> := {};
    var seen: set<string> := {};
    NothingNormal(catalog);
    for n := 0 to |bindings|
      invariant Assignable(catalog, bindings[..n]) && collected == NormalSet(catalog, bindings[..n])
      invariant forall identity :: identity in seen <==>
                                    exists i :: 0 <= i < n && BindingMerge.Identity(bindings[i]) == identity
    {
      OneMoreNormal(catalog, bindings, n, seen);
      hide Assignable;
      var identity := BindingMerge.Identity(bindings[n]);
      var normal := Normalize(catalog, bindings[n]);
      if normal.None? || identity in seen { return None; }
      seen := seen + {identity};
      collected := collected + {normal.value};
    }
    assert bindings[..|bindings|] == bindings;
    SignatureOrder(signature);
    result := Some(Sorted(BySignature(signature), collected));
  }

  lemma NothingNormal(catalog: Catalog)
    ensures NormalSet(catalog, []) == {}
  {
  }

  /** The order of a request does not matter. */
  lemma OrderDoesNotMatter(catalog: Catalog, signature: Signature, a: seq<ResourceBinding>, b: seq<ResourceBinding>)
    requires Injective(signature) && multiset(a) == multiset(b)
    ensures Normalized(catalog, signature, a) == Normalized(catalog, signature, b)
  {
    assert forall binding :: binding in a <==> binding in multiset(a);
    assert forall binding :: binding in b <==> binding in multiset(b);
    assert NormalSet(catalog, a) == NormalSet(catalog, b);
    if Assignable(catalog, a) { PermutedAssignable(catalog, a, b); }
    if Assignable(catalog, b) { PermutedAssignable(catalog, b, a); }
  }

  lemma PermutedAssignable(catalog: Catalog, a: seq<ResourceBinding>, b: seq<ResourceBinding>)
    requires multiset(a) == multiset(b) && Assignable(catalog, a)
    ensures Assignable(catalog, b)
  {
    forall i | 0 <= i < |b| ensures Normalize(catalog, b[i]).Some? {
      assert b[i] in multiset(b);
      assert b[i] in multiset(a);
    }
    forall i, j | 0 <= i < j < |b| ensures BindingMerge.Identity(b[i]) != BindingMerge.Identity(b[j]) {
      if BindingMerge.Identity(b[i]) == BindingMerge.Identity(b[j]) {
        TwiceInSequence(b, i, j);
        assert b[i] in multiset(a) && b[j] in multiset(a);
        var p :| 0 <= p < |a| && a[p] == b[i];
        var q :| 0 <= q < |a| && a[q] == b[j];
        OnceInSequence(a, p);
      }
    }
  }

  lemma TwiceInSequence(s: seq<ResourceBinding>, i: nat, j: nat)
    requires i < j < |s|
    ensures s[i] == s[j] ==> multiset(s)[s[i]] >= 2
  {
    assert s == s[..j] + s[j..];
    assert multiset(s) == multiset(s[..j]) + multiset(s[j..]);
    assert s[i] in s[..j] && s[j] in s[j..];
  }

  lemma OnceInSequence(s: seq<ResourceBinding>, p: nat)
    requires p < |s|
    requires forall i, j :: 0 <= i < j < |s| ==> BindingMerge.Identity(s[i]) != BindingMerge.Identity(s[j])
    ensures multiset(s)[s[p]] == 1
  {
    assert s == s[..p] + [s[p]] + s[p + 1..];
    assert multiset(s) == multiset(s[..p]) + multiset{s[p]} + multiset(s[p + 1..]);
    assert s[p] !in s[..p] && s[p] !in s[p + 1..];
  }

  /** No binding is lost or doubled by normalization. */
  lemma {:induction false} NormalizedCounts(catalog: Catalog, signature: Signature, bindings: seq<ResourceBinding>)
    requires Injective(signature) && Assignable(catalog, bindings)
    ensures |Normalized(catalog, signature, bindings).value| == |bindings|
  {
    SignatureOrder(signature);
    SortedCounts(BySignature(signature), NormalSet(catalog, bindings));
    NormalSetCounts(catalog, bindings);
  }

  lemma {:induction false} NormalSetCounts(catalog: Catalog, bindings: seq<ResourceBinding>)
    requires Assignable(catalog, bindings)
    ensures |NormalSet(catalog, bindings)| == |bindings|
  {
    hide Normalize, BindingMerge.Identity;
    if bindings != [] {
      var before, last := bindings[..|bindings| - 1], bindings[|bindings| - 1];
      NormalSetCounts(catalog, before);
      assert bindings == before + [last];
      NormalSetGrows(catalog, before, last);
    }
  }

  lemma NormalSetGrows(catalog: Catalog, before: seq<ResourceBinding>, last: ResourceBinding)
    requires Normalize(catalog, last).Some?
    requires forall i :: 0 <= i < |before| ==> BindingMerge.Identity(before[i]) != BindingMerge.Identity(last)
    ensures NormalSet(catalog, before + [last]) == NormalSet(catalog, before) + {Normalize(catalog, last).value}
    ensures Normalize(catalog, last).value !in NormalSet(catalog, before)
  {
    var added := Normalize(catalog, last).value;
    NormalKeepsIdentity(catalog, last);
    forall i | 0 <= i < |before| && Normalize(catalog, before[i]).Some?
      ensures Normalize(catalog, before[i]).value != added
    {
      NormalKeepsIdentity(catalog, before[i]);
    }
  }

  lemma NormalKeepsIdentity(catalog: Catalog, binding: ResourceBinding)
    requires Normalize(catalog, binding).Some?
    ensures BindingMerge.Identity(Normalize(catalog, binding).value) == BindingMerge.Identity(binding)
  {
  }

  function WildcardKeys(catalog: Catalog, scope: string): seq<Key> {
    SortedStrings(set key | key in catalog.resources && InScope(key, scope) && catalog.resources[key].kind == "resource"
                            && catalog.resources[key].permissionScope == "*")
  }

  function ReadBindings(catalog: Catalog, keys: seq<Key>,
                        selected: Option<seq<string>>): (bindings: seq<ResourceBinding>)
    ensures forall binding :: binding in bindings ==> binding.resourceKey in keys
  {
    if keys == [] then []
    else
      var registered := RegisteredFeatures(catalog, keys[0], "read");
      var features := if selected.None? then None else Some(Keep(feature => feature in selected.value, registered));
      [ResourceBinding(keys[0], "read", features)] + ReadBindings(catalog, keys[1..], selected)
  }

  /** The bindings a stored configuration is known to grant, or None when it has no such reading. */
  function AssignmentBindings(catalog: Catalog, signature: Signature, word: string,
                              config: Config): Option<seq<ResourceBinding>>
    requires Injective(signature)
  {
    var explicit := ConfigBindings(config);
    if explicit.Some? then Normalized(catalog, signature, explicit.value)
    else if config.builtin == "all" then
      var keys := WildcardKeys(catalog, Scope(word));
      if keys == [] then None else Normalized(catalog, signature, [ResourceBinding(keys[0], "*", Some([]))])
    else if config.builtin == "default" && config.resourceKeys.Some? then
      Normalized(catalog, signature, ReadBindings(catalog, config.resourceKeys.value, config.featureKeys))
    else None
  }

  /** Only a complete definition of this one binding satisfies it. */
  predicate Satisfies(catalog: Catalog, signature: Signature, action: Action, binding: ResourceBinding)
    requires Injective(signature)
  {
    AssignmentBindings(catalog, signature, action.word, action.config) == Some([binding])
  }

  /** The code of the first listed action that satisfies the binding. */
  function First(catalog: Catalog, signature: Signature, rows: Rows, ids: seq<Id>,
                 binding: ResourceBinding): Option<string>
    requires Injective(signature)
    requires forall id :: id in ids ==> id in rows
  {
    if ids == [] then None
    else
      assert ids[0] in ids;
      if Satisfies(catalog, signature, rows[ids[0]], binding) then Some(rows[ids[0]].code)
      else First(catalog, signature, rows, ids[1..], binding)
  }

  function SortedIds(rows: Rows): (ids: seq<Id>)
    ensures forall id :: id in ids <==> id in rows
  {
    IdOrder();
    Sorted(Older, rows.Keys)
  }

  /** The code of the oldest action that satisfies the binding. */
  function FirstMatch(catalog: Catalog, signature: Signature, rows: Rows, binding: ResourceBinding): Option<string>
    requires Injective(signature)
  {
    First(catalog, signature, rows, SortedIds(rows), binding)
  }

  lemma {:induction false} FirstAppended(catalog: Catalog, signature: Signature, rows: Rows, ids: seq<Id>, id: Id,
                                         binding: ResourceBinding)
    requires Injective(signature)
    requires id in rows && forall listed :: listed in ids ==> listed in rows
    ensures First(catalog, signature, rows, ids + [id], binding)
         == if First(catalog, signature, rows, ids, binding).Some? then First(catalog, signature, rows, ids, binding)
            else if Satisfies(catalog, signature, rows[id], binding) then Some(rows[id].code)
            else None
  {
    if ids != [] {
      assert (ids + [id])[1..] == ids[1..] + [id];
      FirstAppended(catalog, signature, rows, ids[1..], id, binding);
    }
  }

  lemma {:induction false} FirstAmongKept(catalog: Catalog, signature: Signature, rows: Rows, ids: seq<Id>,
                                          keep: Id -> bool, binding: ResourceBinding)
    requires Injective(signature)
    requires forall id :: id in ids ==> id in rows
    requires forall id :: id in ids && Satisfies(catalog, signature, rows[id], binding) ==> keep(id)
    ensures First(catalog, signature, rows, Keep(keep, ids), binding) == First(catalog, signature, rows, ids, binding)
  {
    if ids != [] {
      assert ids == [ids[0]] + ids[1..];
      KeepFirst(keep, ids[0], ids[1..]);
      FirstAmongKept(catalog, signature, rows, ids[1..], keep, binding);
      assert ids[0] in ids;
      if keep(ids[0]) {
        assert ([ids[0]] + Keep(keep, ids[1..]))[1..] == Keep(keep, ids[1..]);
      } else {
        assert [] + Keep(keep, ids[1..]) == Keep(keep, ids[1..]);
      }
    }
  }

  lemma {:induction false} FirstIsASatisfyingRow(catalog: Catalog, signature: Signature, rows: Rows, ids: seq<Id>,
                                                 binding: ResourceBinding) returns (id: Id)
    requires Injective(signature)
    requires forall listed :: listed in ids ==> listed in rows
    requires First(catalog, signature, rows, ids, binding).Some?
    ensures id in ids && Satisfies(catalog, signature, rows[id], binding)
    ensures First(catalog, signature, rows, ids, binding).value == rows[id].code
  {
    id := ids[0];
    if !Satisfies(catalog, signature, rows[id], binding) {
      id := FirstIsASatisfyingRow(catalog, signature, rows, ids[1..], binding);
    }
  }

  /** Different bindings are never given the same code. */
  lemma DifferentBindingsDifferentCodes(catalog: Catalog, signature: Signature, rows: Rows, a: ResourceBinding,
                                        b: ResourceBinding)
    requires Injective(signature) && a != b
    requires forall i, j :: i in rows && j in rows && i != j ==> rows[i].code != rows[j].code
    requires FirstMatch(catalog, signature, rows, a).Some?
    ensures FirstMatch(catalog, signature, rows, a) != FirstMatch(catalog, signature, rows, b)
  {
    if FirstMatch(catalog, signature, rows, b).Some? {
      var i := FirstIsASatisfyingRow(catalog, signature, rows, SortedIds(rows), a);
      var j := FirstIsASatisfyingRow(catalog, signature, rows, SortedIds(rows), b);
      assert [a][0] == a && [b][0] == b;
    }
  }

  lemma {:induction false} FirstInGrownRows(catalog: Catalog, signature: Signature, rows: Rows, more: Rows,
                                            ids: seq<Id>, binding: ResourceBinding)
    requires Injective(signature)
    requires forall id :: id in ids ==> id in rows && id in more && more[id] == rows[id]
    ensures First(catalog, signature, more, ids, binding) == First(catalog, signature, rows, ids, binding)
  {
    if ids != [] {
      assert ids[0] in ids;
      assert more[ids[0]] == rows[ids[0]];
      FirstInGrownRows(catalog, signature, rows, more, ids[1..], binding);
    }
  }

  /** A younger action only matters to bindings that nothing satisfied before. */
  lemma MatchAfterInsert(catalog: Catalog, signature: Signature, rows: Rows, id: Id, row: Action,
                         binding: ResourceBinding)
    requires Injective(signature)
    requires forall known :: known in rows ==> known.number < id.number
    ensures FirstMatch(catalog, signature, rows[id := row], binding)
         == if FirstMatch(catalog, signature, rows, binding).Some? then FirstMatch(catalog, signature, rows, binding)
            else if Satisfies(catalog, signature, row, binding) then Some(row.code)
            else None
  {
    IdOrder();
    var more := rows[id := row];
    assert more.Keys == rows.Keys + {id};
    SortedWithGreatest(Older, rows.Keys, id);
    FirstAppended(catalog, signature, more, SortedIds(rows), id, binding);
    FirstInGrownRows(catalog, signature, rows, more, SortedIds(rows), binding);
  }

  lemma ScopeOfIdentity(word: string, group: string)
    requires ValidIdentity(word, group)
    ensures Scope(group) == Scope(word)
  {
    FirstSegmentIsScope(word);
    FirstSegmentIsScope(group);
  }

  lemma OnlyFromRequest(catalog: Catalog, signature: Signature, bindings: seq<ResourceBinding>,
                        binding: ResourceBinding) returns (from: ResourceBinding)
    requires Injective(signature)
    requires Normalized(catalog, signature, bindings).Some? && binding in Normalized(catalog, signature, bindings).value
    ensures from in bindings && Normalize(catalog, from) == Some(binding) && from.resourceKey == binding.resourceKey
  {
    from :| from in bindings && Normalize(catalog, from).Some? && Normalize(catalog, from).value == binding;
  }

  /** An action of another scope never satisfies a binding, so the lookup may skip it. */
  lemma SatisfiedInOwnScope(catalog: Catalog, signature: Signature, action: Action, binding: ResourceBinding)
    requires Injective(signature)
    requires UpToDate(catalog, action.word, action.config)
    requires Satisfies(catalog, signature, action, binding)
    ensures Scope(action.word) == Scope(binding.resourceKey)
  {
    var config, word := action.config, action.word;
    assert [binding][0] == binding;
    var explicit := ConfigBindings(config);
    if explicit.Some? {
      var from := OnlyFromRequest(catalog, signature, explicit.value, binding);
      StoredBindingsAreOk(catalog, word, config);
      var i :| 0 <= i < |explicit.value| && explicit.value[i] == from;
      assert ValidResourceBinding(word, explicit.value[i]);
      ScopeOfIdentity(word, from.resourceKey);
    } else if config.builtin == "all" {
      var keys := WildcardKeys(catalog, Scope(word));
      var from := OnlyFromRequest(catalog, signature, [ResourceBinding(keys[0], "*", Some([]))], binding);
      ScopeIsThePrefix(keys[0], Scope(word));
    } else {
      var from := OnlyFromRequest(catalog, signature,
                                  ReadBindings(catalog, config.resourceKeys.value, config.featureKeys), binding);
      StoredKeysAreOk(catalog, word, config);
      var i :| 0 <= i < |config.resourceKeys.value| && config.resourceKeys.value[i] == from.resourceKey;
      ScopeIsThePrefix(from.resourceKey, Scope(word));
    }
  }

  lemma StoredBindingsAreOk(catalog: Catalog, word: string, config: Config)
    requires UpToDate(catalog, word, config) && ConfigBindings(config).Some?
    ensures BindingsOk(word, ConfigBindings(config).value)
  {
  }

  lemma StoredKeysAreOk(catalog: Catalog, word: string, config: Config)
    requires UpToDate(catalog, word, config) && ConfigBindings(config).None? && config.builtin == "default"
    requires config.resourceKeys.Some?
    ensures Selectable(catalog, Scope(word), config.resourceKeys.value, config.featureKeys)
  {
  }

  function AssignedConfig(binding: ResourceBinding): Config {
    Config(Some([binding]), "", "", "", None, None, [], "", [], [])
  }

  /** The definition created for a normalized binding satisfies that binding and no other. */
  lemma CreatedSatisfies(catalog: Catalog, signature: Signature, word: string, from: ResourceBinding,
                         binding: ResourceBinding, stored: Config)
    requires Injective(signature)
    requires Normalize(catalog, from) == Some(binding)
    requires ResolveStored(catalog, word, AssignedConfig(binding)) == Some(stored)
    ensures AssignmentBindings(catalog, signature, word, stored) == Some([binding])
  {
    var bindings := [binding];
    assert ConfigBindings(stored) == Some(bindings);
    assert bindings[..0] == [];
    assert ValidResourceBinding(word, bindings[0]);
    ScopeOfIdentity(word, binding.resourceKey);
    assert ResolveBinding(catalog, Scope(word), binding.resourceKey, binding.operation, binding.featureKeys,
                          None).Some?;
    assert ElementsOf(binding.featureKeys.value) == ElementsOf(if from.featureKeys.Some? then from.featureKeys.value
                                                              else RegisteredFeatures(catalog, from.resourceKey,
                                                                                      from.operation));
    assert Normalize(catalog, binding) == Some(binding);
    SingleIsSorted(catalog, signature, binding);
  }

  lemma SingleIsSorted(catalog: Catalog, signature: Signature, binding: ResourceBinding)
    requires Injective(signature) && Normalize(catalog, binding) == Some(binding)
    ensures Normalized(catalog, signature, [binding]) == Some([binding])
  {
    SignatureOrder(signature);
    assert NormalSet(catalog, [binding]) == {binding};
    SortedSingle(BySignature(signature), binding);
    assert Assignable(catalog, [binding]);
  }

  lemma ValidBindingScope(word: string, binding: ResourceBinding)
    requires ValidResourceBinding(word, binding)
    ensures Scope(binding.resourceKey) == Scope(word)
  {
    ScopeOfIdentity(word, binding.resourceKey);
  }

  lemma SatisfyingBinding(catalog: Catalog, signature: Signature, action: Action, normal: ResourceBinding)
    returns (from: ResourceBinding)
    requires Injective(signature)
    requires ConfigBindings(action.config).Some? && Satisfies(catalog, signature, action, normal)
    ensures ConfigBindings(action.config) == Some([from]) && Normalize(catalog, from) == Some(normal)
    ensures from.resourceKey == normal.resourceKey && from.operation == normal.operation
  {
    hide Normalize;
    var stored := ConfigBindings(action.config).value;
    NormalizedCounts(catalog, signature, stored);
    assert |[normal]| == 1;
    assert stored == [stored[0]] && [normal][0] == normal;
    from := OnlyFromRequest(catalog, signature, stored, normal);
    assert from == stored[0];
    SamePair(catalog, from, normal);
  }

  lemma SamePair(catalog: Catalog, from: ResourceBinding, normal: ResourceBinding)
    requires Normalize(catalog, from) == Some(normal)
    ensures from.resourceKey == normal.resourceKey && from.operation == normal.operation
  {
  }

  lemma NormalIsOperable(catalog: Catalog, binding: ResourceBinding, normal: ResourceBinding)
    requires Normalize(catalog, binding) == Some(normal)
    requires !Wildcard(catalog, binding.resourceKey, binding.operation)
    ensures ResolveOperation(catalog, normal.resourceKey, normal.operation, normal.featureKeys, None).Some?
  {
    hide OperationGrant;
    var operation := catalog.resources[binding.resourceKey].operations[binding.operation];
    var features := Chosen(operation, binding.featureKeys);
    var listed := normal.featureKeys.value;
    assert forall feature :: feature in listed <==> feature in features;
    forall i | 0 <= i < |listed| ensures listed[i] in catalog.buttons && listed[i] in operation.buttonKeys {
      assert listed[i] in features;
    }
    forall i, j | 0 <= i < j < |listed| ensures listed[i] != listed[j] {
      StringOrder();
      SortedAscends(StringBelow, ElementsOf(features), i, j);
    }
  }
}
