/**
The group that a created assignment action is filed under: the nearest one
registered on the way up from the resource, or the least one of its scope.
*/
module PermissionGroups {
  import opened Options
  import opened ResourceCatalog
  import opened Ordering
  import opened ActionTable

  predicate HasParent(catalog: Catalog, key: Key, parent: Key) {
    key in catalog.resources && catalog.resources[key].parent == parent
  }

  /** A way up along parents, from one key to the next until an unknown, empty or repeated one. */
  ghost predicate Climb(catalog: Catalog, from: Key, chain: seq<Key>) {
    && chain != [] && chain[0] == from
    && (forall i :: 0 <= i < |chain| ==> chain[i] != "")
    && (forall i, j :: 0 <= i < j < |chain| ==> chain[i] != chain[j])
    && forall i :: 0 <= i < |chain| - 1 ==> HasParent(catalog, chain[i], chain[i + 1])
  }

  /** A key is filed under its registered permission group, or else is a registered group itself. */
  ghost predicate FiledUnder(definitions: Definitions, key: Key, group: string) {
    var resources := definitions.catalog.resources;
    && group in definitions.groups
    && (key in resources && resources[key].permissionGroup in definitions.groups ==>
          group == resources[key].permissionGroup)
    && (!(key in resources && resources[key].permissionGroup in definitions.groups) ==> group == key)
  }

  ghost predicate Unfiled(definitions: Definitions, key: Key) {
    forall group :: !FiledUnder(definitions, key, group)
  }

  /** The last key of the way up is the first one that is filed. */
  ghost predicate Nearest(definitions: Definitions, from: Key, chain: seq<Key>, group: string) {
    && Climb(definitions.catalog, from, chain)
    && FiledUnder(definitions, chain[|chain| - 1], group)
    && forall i :: 0 <= i < |chain| - 1 ==> Unfiled(definitions, chain[i])
  }

  ghost predicate NoneOnTheWay(definitions: Definitions, from: Key) {
    forall chain, i ::
      Climb(definitions.catalog, from, chain) && 0 <= i < |chain| ==> Unfiled(definitions, chain[i])
  }

  predicate Available(definitions: Definitions, scope: string, group: string) {
    group in definitions.groups && InScope(group, scope)
  }

  function ScopedGroups(definitions: Definitions, scope: string): seq<string> {
    SortedStrings(set group | group in definitions.groups && InScope(group, scope))
  }

  /** The least registered group of the scope, if there is one. */
  ghost predicate FirstOfScope(definitions: Definitions, scope: string, group: Option<string>) {
    match group
    case Some(g) =>
      && Available(definitions, scope, g)
      && forall other :: Available(definitions, scope, other) ==> StringBelow(g, other)
    case None => forall other :: !Available(definitions, scope, other)
  }

  ghost predicate ChosenGroup(definitions: Definitions, from: Key, group: Option<string>) {
    if NoneOnTheWay(definitions, from) then FirstOfScope(definitions, Scope(from), group)
    else group.Some? && exists chain :: Nearest(definitions, from, chain, group.value)
  }

  /** Two ways up from one key agree as far as both go. */
  lemma {:induction false} ClimbsAgree(catalog: Catalog, from: Key, a: seq<Key>, b: seq<Key>, i: nat)
    requires Climb(catalog, from, a) && Climb(catalog, from, b) && i < |a| && i < |b|
    ensures a[i] == b[i]
  {
    if i > 0 {
      ClimbsAgree(catalog, from, a, b, i - 1);
    }
  }

  lemma UnfiledKey(definitions: Definitions, key: Key)
    requires key in definitions.catalog.resources ==>
               definitions.catalog.resources[key].permissionGroup !in definitions.groups
    requires key !in definitions.groups
    ensures Unfiled(definitions, key)
  {
  }

  /** A climb without a filed key so far, and the key it comes to next. */
  ghost predicate Climbed(definitions: Definitions, from: Key, chain: seq<Key>, next: Key) {
    && (chain != [] ==> Climb(definitions.catalog, from, chain))
    && (forall i :: 0 <= i < |chain| ==> Unfiled(definitions, chain[i]))
    && var resources := definitions.catalog.resources;
       if chain == [] then next == from
       else if chain[|chain| - 1] in resources then next == resources[chain[|chain| - 1]].parent
       else next == ""
  }

  lemma OneStepUp(definitions: Definitions, from: Key, chain: seq<Key>, key: Key)
    requires Climbed(definitions, from, chain, key) && key != "" && key !in chain
    ensures Climb(definitions.catalog, from, chain + [key])
    ensures forall i :: 0 <= i < |chain| ==> Unfiled(definitions, (chain + [key])[i])
  {
    hide Unfiled;
  }

  lemma NearestIsChosen(definitions: Definitions, from: Key, chain: seq<Key>, group: string)
    requires chain != [] && Climb(definitions.catalog, from, chain)
    requires forall i :: 0 <= i < |chain| - 1 ==> Unfiled(definitions, chain[i])
    requires FiledUnder(definitions, chain[|chain| - 1], group)
    ensures ChosenGroup(definitions, from, Some(group))
  {
    assert Nearest(definitions, from, chain, group);
    assert !Unfiled(definitions, chain[|chain| - 1]);
  }

  lemma LeastIsChosen(definitions: Definitions, from: Key, group: Option<string>)
    requires NoneOnTheWay(definitions, from)
    requires var available := ScopedGroups(definitions, Scope(from));
             group == if |available| == 0 then None else Some(available[0])
    ensures ChosenGroup(definitions, from, group)
  {
    var scope := Scope(from);
    var groups := set group | group in definitions.groups && InScope(group, scope);
    var available := ScopedGroups(definitions, scope);
    StringOrder();
    forall other | Available(definitions, scope, other) ensures other in available {
    }
    if available != [] {
      assert IsLeast(StringBelow, groups, available[0]);
    }
  }

  /** A climb that cannot go on shows all there is to see. */
  lemma ClimbIsOver(definitions: Definitions, from: Key, chain: seq<Key>, next: Key)
    requires Climbed(definitions, from, chain, next)
    requires next == "" || next in chain
    ensures NoneOnTheWay(definitions, from)
  {
    hide Unfiled;
    forall other, i | Climb(definitions.catalog, from, other) && 0 <= i < |other|
      ensures Unfiled(definitions, other[i])
    {
      if chain != [] {
        ClimbsAgree(definitions.catalog, from, chain, other, if i < |chain| then i else |chain| - 1);
        if i >= |chain| {
          assert other[|chain|] == next;
          var j :| 0 <= j < |chain| && chain[j] == next;
          ClimbsAgree(definitions.catalog, from, chain, other, j);
          assert false;
        }
      }
    }
  }

  lemma ChosenIsRegistered(definitions: Definitions, from: Key, group: string)
    requires ChosenGroup(definitions, from, Some(group))
    ensures group in definitions.groups
  {
  }

  /** At most one group is chosen. */
  lemma ChosenGroupIsUnique(definitions: Definitions, from: Key, one: Option<string>, two: Option<string>)
    requires ChosenGroup(definitions, from, one) && ChosenGroup(definitions, from, two)
    ensures one == two
  {
    if NoneOnTheWay(definitions, from) {
      if one.Some? && two.Some? {
        StringBelowAntisymmetric(one.value, two.value);
      }
    } else {
      var a :| Nearest(definitions, from, a, one.value);
      var b :| Nearest(definitions, from, b, two.value);
      var i := if |a| <= |b| then |a| - 1 else |b| - 1;
      ClimbsAgree(definitions.catalog, from, a, b, i);
      assert !Unfiled(definitions, a[|a| - 1]) && !Unfiled(definitions, b[|b| - 1]);
    }
  }
}
