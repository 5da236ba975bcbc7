/**
The three-state depth-first search that Validate runs over the combined
parent-to-child and reference graph.
*/
module CycleCheck {
  import opened ResourceCatalog

  type Edges = map<Key, seq<Key>>

  function Targets(edges: Edges, key: Key): seq<Key> {
    if key in edges then edges[key] else []
  }

  /** A walk follows at least one edge. */
  ghost predicate Walk(edges: Edges, w: seq<Key>) {
    |w| >= 2 && forall i :: 0 <= i < |w| - 1 ==> w[i + 1] in Targets(edges, w[i])
  }

  ghost predicate Reaches(edges: Edges, from: Key, to: Key) {
    exists w :: Walk(edges, w) && w[0] == from && w[|w| - 1] == to
  }

  ghost predicate Cyclic(edges: Edges) {
    exists key :: Reaches(edges, key, key)
  }

  lemma Extend(edges: Edges, from: Key, via: Key, to: Key)
    requires Reaches(edges, from, via) && to in Targets(edges, via)
    ensures Reaches(edges, from, to)
  {
    var w :| Walk(edges, w) && w[0] == from && w[|w| - 1] == via;
    assert Walk(edges, w + [to]);
  }

  lemma Single(edges: Edges, from: Key, to: Key)
    requires to in Targets(edges, from)
    ensures Reaches(edges, from, to)
  {
    assert Walk(edges, [from, to]);
  }

  /** Every edge of a listed key leads to a key listed earlier. */
  ghost predicate Topological(edges: Edges, order: seq<Key>) {
    forall i, t :: 0 <= i < |order| && t in Targets(edges, order[i]) ==> t in order[..i]
  }

  ghost predicate Distinct(order: seq<Key>) {
    forall i, j :: 0 <= i < j < |order| ==> order[i] != order[j]
  }

  /** Along a walk that starts on a listed key the positions go down. */
  lemma {:induction false} WalkDescends(edges: Edges, order: seq<Key>, w: seq<Key>, start: nat) returns (end: nat)
    requires Topological(edges, order) && Walk(edges, w)
    requires start < |order| && order[start] == w[0]
    ensures end < start && order[end] == w[|w| - 1]
    decreases |w|
  {
    assert w[1] in order[..start];
    var next :| 0 <= next < start && order[next] == w[1];
    if |w| == 2 {
      end := next;
    } else {
      assert Walk(edges, w[1..]) by {
        forall i | 0 <= i < |w[1..]| - 1 ensures w[1..][i + 1] in Targets(edges, w[1..][i]) {
          assert w[i + 2] in Targets(edges, w[i + 1]);
        }
      }
      end := WalkDescends(edges, order, w[1..], next);
    }
  }

  /** A topological listing of every key that has edges rules out cycles. */
  lemma TopologicalIsAcyclic(edges: Edges, order: seq<Key>)
    requires Topological(edges, order) && Distinct(order)
    requires forall key :: Targets(edges, key) != [] ==> key in order
    ensures !Cyclic(edges)
  {
    if Cyclic(edges) {
      var key :| Reaches(edges, key, key);
      var w :| Walk(edges, w) && w[0] == key && w[|w| - 1] == key;
      assert w[1] in Targets(edges, w[0]);
      var start :| 0 <= start < |order| && order[start] == key;
      var end := WalkDescends(edges, order, w, start);
    }
  }

  datatype Mark = Active | Done

  predicate IsActive(states: map<Key, Mark>, key: Key) {
    key in states && states[key] == Active
  }

  predicate IsDone(states: map<Key, Mark>, key: Key) {
    key in states && states[key] == Done
  }

  /** A visit leaves the active keys as they are and finishes some others. */
  ghost predicate OnlyFinishes(before: map<Key, Mark>, after: map<Key, Mark>) {
    && (forall key :: IsActive(after, key) <==> IsActive(before, key))
    && (forall key :: IsDone(before, key) ==> IsDone(after, key))
    && before.Keys <= after.Keys
  }

  lemma Entering(before: map<Key, Mark>, after: map<Key, Mark>, key: Key)
    requires key !in before && OnlyFinishes(before[key := Active], after)
    ensures forall active :: IsActive(after, active) && active != key ==> IsActive(before, active)
    ensures IsActive(after, key)
  {
    assert IsActive(before[key := Active], key);
    forall active | IsActive(after, active) && active != key ensures IsActive(before, active) {
      assert IsActive(before[key := Active], active);
    }
  }

  lemma Finishing(before: map<Key, Mark>, after: map<Key, Mark>, key: Key)
    requires key !in before && OnlyFinishes(before[key := Active], after)
    ensures OnlyFinishes(before, after[key := Done])
  {
    var entered := before[key := Active];
    forall other ensures IsActive(after[key := Done], other) <==> IsActive(before, other) {
      assert IsActive(after, other) <==> IsActive(entered, other);
    }
    forall other | IsDone(before, other) ensures IsDone(after[key := Done], other) {
      assert IsDone(entered, other);
    }
  }

  class Search {
    const edges: Edges
    const roots: set<Key>
    // A key that is missing has not been seen.
    var states: map<Key, Mark>
    // The keys in the order they were finished.
    ghost var order: seq<Key>

    constructor (edges: Edges, roots: set<Key>)
      ensures this.edges == edges && this.roots == roots
      ensures states == map[] && order == []
    {
      this.edges := edges;
      this.roots := roots;
      states := map[];
      order := [];
    }

    ghost predicate Valid()
      reads this
    {
      && Distinct(order)
      && Topological(edges, order)
      && (forall key :: key in order <==> IsDone(states, key))
    }

    /** The keys still being explored lie on one walk, which leads to the key visited next. */
    ghost predicate Leads(key: Key)
      reads this
    {
      forall active :: IsActive(states, active) ==> Reaches(edges, active, key)
    }

    ghost function Universe(): set<Key> {
      roots + edges.Keys + set key, i | key in edges && 0 <= i < |edges[key]| :: edges[key][i]
    }

    method Visit(key: Key) returns (ok: bool)
      requires Valid() && Leads(key) && key in Universe()
      modifies this
      ensures ok ==> Valid() && IsDone(states, key) && OnlyFinishes(old(states), states)
      ensures !ok ==> Cyclic(edges)
      decreases Universe() - states.Keys, 1
    {
      if IsActive(states, key) {
        assert Reaches(edges, key, key);
        return false;
      }
      if IsDone(states, key) { return true; }
      ok := VisitUnseen(key);
    }

    method VisitUnseen(key: Key) returns (ok: bool)
      requires Valid() && Leads(key) && key in Universe() && key !in states
      modifies this
      ensures ok ==> Valid() && IsDone(states, key) && OnlyFinishes(old(states), states)
      ensures !ok ==> Cyclic(edges)
      decreases Universe() - states.Keys, 0
    {
      ghost var before := states;
      states := states[key := Active];
      ghost var entered := states;
      assert IsActive(entered, key);
      var targets := Targets(edges, key);
      for i := 0 to |targets|
        invariant Valid() && OnlyFinishes(entered, states)
        invariant forall j :: 0 <= j < i ==> IsDone(states, targets[j])
      {
        Entering(before, states, key);
        LeadsOn(key, targets[i]);
        ok := Visit(targets[i]);
        if !ok { return; }
      }
      assert key !in order;
      FinishedExtends(edges, order, key);
      Finishing(before, states, key);
      states := states[key := Done];
      order := order + [key];
      ok := true;
    }

    lemma LeadsOn(key: Key, target: Key)
      requires IsActive(states, key) && target in Targets(edges, key)
      requires forall active :: IsActive(states, active) && active != key ==> Reaches(edges, active, key)
      ensures Leads(target) && target in Universe()
    {
      Single(edges, key, target);
      forall active | IsActive(states, active) && active != key ensures Reaches(edges, active, target) {
        Extend(edges, active, key, target);
      }
      var i :| 0 <= i < |edges[key]| && edges[key][i] == target;
    }
  }

  lemma FinishedExtends(edges: Edges, order: seq<Key>, key: Key)
    requires Distinct(order) && Topological(edges, order) && key !in order
    requires forall target :: target in Targets(edges, key) ==> target in order
    ensures Distinct(order + [key]) && Topological(edges, order + [key])
  {
    var next := order + [key];
    forall i, target | 0 <= i < |next| && target in Targets(edges, next[i]) ensures target in next[..i] {
      assert next[..i] == order[..i];
      assert order[..|order|] == order;
    }
  }

  /** Passes exactly on acyclic graphs, whatever order the roots are taken in. */
  method CheckAcyclic(edges: Edges, roots: set<Key>) returns (ok: bool)
    requires forall key :: Targets(edges, key) != [] ==> key in roots
    ensures ok <==> !Cyclic(edges)
  {
    var search := new Search(edges, roots);
    var remaining := roots;
    while remaining != {}
      invariant search.Valid() && search.edges == edges && search.roots == roots
      invariant forall key :: !IsActive(search.states, key)
      invariant forall key :: key in roots && key !in remaining ==> IsDone(search.states, key)
    {
      var key :| key in remaining;
      label Before:
      ok := search.Visit(key);
      if !ok { return; }
      remaining := remaining - {key};
    }
    TopologicalIsAcyclic(edges, search.order);
    ok := true;
  }
}
