/**
Bindings that name the same resource and operation are merged into one.
*/
module BindingMerge {
  import opened Options
  import opened ResourceCatalog

  function Identity(binding: ResourceBinding): string {
    binding.resourceKey + ":" + binding.operation
  }

  /** The features of the right list that the left one lacks are appended in order. */
  function AppendMissing(left: seq<string>, right: seq<string>): (joined: seq<string>)
    ensures left <= joined
    ensures forall feature :: feature in joined <==> feature in left || feature in right
    decreases right
  {
    if right == [] then left
    else AppendMissing(if right[0] in left then left else left + [right[0]], right[1..])
  }

  function Join(left: Option<seq<string>>, right: Option<seq<string>>): Option<seq<string>> {
    if left.None? || right.None? then None else Some(AppendMissing(left.value, right.value))
  }

  /** The features collected for one identity, or None when no binding carries it. */
  function Collected(bindings: seq<ResourceBinding>, identity: string): Option<Option<seq<string>>> {
    if bindings == [] then None
    else
      var last := bindings[|bindings| - 1];
      var before := Collected(bindings[..|bindings| - 1], identity);
      if Identity(last) != identity then before
      else if before.None? then Some(last.featureKeys)
      else Some(Join(before.value, last.featureKeys))
  }

  ghost predicate Part(bindings: seq<ResourceBinding>, identity: string, binding: ResourceBinding) {
    binding in bindings && Identity(binding) == identity
  }

  lemma PartOfPrefix(bindings: seq<ResourceBinding>, identity: string, binding: ResourceBinding)
    requires bindings != []
    ensures Part(bindings, identity, binding)
       <==> (Part(bindings[..|bindings| - 1], identity, binding)
             || (binding == bindings[|bindings| - 1] && Identity(binding) == identity))
  {
    assert bindings == bindings[..|bindings| - 1] + [bindings[|bindings| - 1]];
  }

  /** A merge selects every feature as soon as one part does, and otherwise exactly the union. */
  lemma {:induction false} CollectedMeansUnion(bindings: seq<ResourceBinding>, identity: string)
    ensures Collected(bindings, identity).None? <==> forall binding :: !Part(bindings, identity, binding)
    ensures Collected(bindings, identity).Some? ==>
              (Collected(bindings, identity).value.None?
               <==> exists binding :: Part(bindings, identity, binding) && binding.featureKeys.None?)
    ensures Collected(bindings, identity).Some? && Collected(bindings, identity).value.Some? ==>
              forall feature :: feature in Collected(bindings, identity).value.value
                           <==> exists binding :: Part(bindings, identity, binding) && binding.featureKeys.Some?
                                                  && feature in binding.featureKeys.value
  {
    if bindings != [] {
      var before := bindings[..|bindings| - 1];
      CollectedMeansUnion(before, identity);
      forall binding {
        PartOfPrefix(bindings, identity, binding);
      }
    }
  }

  /** Merging equal parts changes nothing. */
  lemma {:induction false} CollectedUniform(bindings: seq<ResourceBinding>, identity: string, features: seq<string>)
    requires forall binding :: Part(bindings, identity, binding) ==> binding.featureKeys == Some(features)
    ensures Collected(bindings, identity).Some? ==> Collected(bindings, identity).value == Some(features)
  {
    if bindings != [] {
      var before := bindings[..|bindings| - 1];
      forall binding {
        PartOfPrefix(bindings, identity, binding);
      }
      CollectedUniform(before, identity, features);
      NothingMissing(features, features);
    }
  }

  lemma {:induction false} NothingMissing(left: seq<string>, right: seq<string>)
    requires forall feature :: feature in right ==> feature in left
    ensures AppendMissing(left, right) == left
  {
    if right != [] {
      assert right[0] in left;
      NothingMissing(left, right[1..]);
    }
  }

  /** One entry per identity, in the words of its first part, with the features of all of them. */
  ghost predicate Merged(bindings: seq<ResourceBinding>, merged: seq<ResourceBinding>) {
    && (forall i, j :: 0 <= i < j < |merged| ==> Identity(merged[i]) != Identity(merged[j]))
    && (forall i :: 0 <= i < |merged| ==> Collected(bindings, Identity(merged[i])) == Some(merged[i].featureKeys))
    && (forall i :: 0 <= i < |merged| ==> Named(bindings, merged[i]))
    && (forall k :: 0 <= k < |bindings| ==> Present(merged, Identity(bindings[k])))
  }

  ghost predicate Named(bindings: seq<ResourceBinding>, entry: ResourceBinding) {
    exists k :: 0 <= k < |bindings| && bindings[k].resourceKey == entry.resourceKey &&
                bindings[k].operation == entry.operation
  }

  ghost predicate Present(merged: seq<ResourceBinding>, identity: string) {
    exists i :: 0 <= i < |merged| && Identity(merged[i]) == identity
  }

  method AppendEach(left: seq<string>, right: seq<string>) returns (joined: seq<string>)
    ensures joined == AppendMissing(left, right)
  {
    joined := left;
    for i := 0 to |right|
      invariant AppendMissing(joined, right[i..]) == AppendMissing(left, right)
    {
      assert right[i..][1..] == right[i + 1..];
      if right[i] !in joined {
        joined := joined + [right[i]];
      }
    }
  }

  ghost predicate Indexed(merged: seq<ResourceBinding>, positions: map<string, nat>) {
    && (forall i :: 0 <= i < |merged| ==> Identity(merged[i]) in positions && positions[Identity(merged[i])] == i)
    && (forall identity :: identity in positions ==>
                           positions[identity] < |merged| && Identity(merged[positions[identity]]) == identity)
  }

  /** What the first n bindings have been merged into. */
  ghost predicate MergedSoFar(bindings: seq<ResourceBinding>, n: nat, merged: seq<ResourceBinding>,
                              positions: map<string, nat>)
    requires n <= |bindings|
  {
    && Indexed(merged, positions)
    && (forall i :: 0 <= i < |merged| ==> Named(bindings, merged[i]))
    && (forall k :: 0 <= k < n ==> Identity(bindings[k]) in positions)
    && (forall identity :: identity in positions ==>
          Collected(bindings[..n], identity) == Some(merged[positions[identity]].featureKeys))
    && (forall identity :: identity !in positions ==> Collected(bindings[..n], identity) == None)
  }

  /** Where an identity is mentioned first. */
  function FirstMention(bindings: seq<ResourceBinding>, identity: string): (at: nat)
    ensures at <= |bindings|
    ensures at < |bindings| ==> Identity(bindings[at]) == identity
    ensures forall i :: 0 <= i < at ==> Identity(bindings[i]) != identity
  {
    if bindings == [] || Identity(bindings[0]) == identity then 0 else 1 + FirstMention(bindings[1..], identity)
  }

  /** The entries stand in the order in which their identities are first mentioned. */
  ghost predicate InOrderOfMention(bindings: seq<ResourceBinding>, merged: seq<ResourceBinding>) {
    forall i, j :: 0 <= i < j < |merged| ==>
      FirstMention(bindings, Identity(merged[i])) < FirstMention(bindings, Identity(merged[j]))
  }

  ghost predicate MentionedBefore(bindings: seq<ResourceBinding>, merged: seq<ResourceBinding>, n: nat) {
    forall i :: 0 <= i < |merged| ==> FirstMention(bindings, Identity(merged[i])) < n
  }

  lemma OrderedAfterEdit(bindings: seq<ResourceBinding>, n: nat, merged: seq<ResourceBinding>, index: nat,
                         entry: ResourceBinding)
    requires index < |merged| && Identity(entry) == Identity(merged[index])
    requires InOrderOfMention(bindings, merged) && MentionedBefore(bindings, merged, n)
    ensures InOrderOfMention(bindings, merged[index := entry]) &&
            MentionedBefore(bindings, merged[index := entry], n + 1)
  {
    hide FirstMention, Identity;
  }

  lemma OrderedAfterNew(bindings: seq<ResourceBinding>, n: nat, merged: seq<ResourceBinding>,
                        positions: map<string, nat>)
    requires n < |bindings| && MergedSoFar(bindings, n, merged, positions) && Identity(bindings[n]) !in positions
    requires InOrderOfMention(bindings, merged) && MentionedBefore(bindings, merged, n)
    ensures InOrderOfMention(bindings, merged + [bindings[n]]) &&
            MentionedBefore(bindings, merged + [bindings[n]], n + 1)
  {
    hide FirstMention, Identity, Collected, Named;
    assert forall k :: 0 <= k < n ==> Identity(bindings[k]) != Identity(bindings[n]);
    assert FirstMention(bindings, Identity(bindings[n])) == n;
  }

  method MergeBindings(bindings: seq<ResourceBinding>) returns (merged: seq<ResourceBinding>)
    ensures Merged(bindings, merged) && InOrderOfMention(bindings, merged)
  {
    hide InOrderOfMention, MentionedBefore;
    merged := [];
    var positions: map<string, nat> := map[];
    NothingMentioned(bindings);
    for n := 0 to |bindings|
      invariant MergedSoFar(bindings, n, merged, positions)
      invariant InOrderOfMention(bindings, merged) && MentionedBefore(bindings, merged, n)
    {
      var binding := bindings[n];
      var key := Identity(binding);
      if key in positions {
        var index := positions[key];
        var previous := merged[index];
        if previous.featureKeys.None? || binding.featureKeys.None? {
          previous := previous.(featureKeys := None);
        } else {
          var joined := AppendEach(previous.featureKeys.value, binding.featureKeys.value);
          previous := previous.(featureKeys := Some(joined));
        }
        MergeKnown(bindings, n, merged, positions, previous);
        OrderedAfterEdit(bindings, n, merged, index, previous);
        merged := merged[index := previous];
      } else {
        MergeNew(bindings, n, merged, positions);
        OrderedAfterNew(bindings, n, merged, positions);
        positions := positions[key := |merged|];
        merged := merged + [binding];
      }
    }
    AllMerged(bindings, merged, positions);
  }

  lemma NothingMentioned(bindings: seq<ResourceBinding>)
    ensures InOrderOfMention(bindings, []) && MentionedBefore(bindings, [], 0)
  {
  }

  lemma AllMerged(bindings: seq<ResourceBinding>, merged: seq<ResourceBinding>, positions: map<string, nat>)
    requires MergedSoFar(bindings, |bindings|, merged, positions)
    ensures Merged(bindings, merged)
  {
    assert bindings[..|bindings|] == bindings;
    forall k | 0 <= k < |bindings| ensures Present(merged, Identity(bindings[k])) {
      assert Identity(merged[positions[Identity(bindings[k])]]) == Identity(bindings[k]);
    }
  }

  lemma MergeKnown(bindings: seq<ResourceBinding>, n: nat, merged: seq<ResourceBinding>, positions: map<string, nat>,
                   entry: ResourceBinding)
    requires n < |bindings| && MergedSoFar(bindings, n, merged, positions)
    requires Identity(bindings[n]) in positions
    requires var previous := merged[positions[Identity(bindings[n])]];
             entry == previous.(featureKeys := Join(previous.featureKeys, bindings[n].featureKeys))
    ensures MergedSoFar(bindings, n + 1, merged[positions[Identity(bindings[n])] := entry], positions)
  {
    var index := positions[Identity(bindings[n])];
    var next := merged[index := entry];
    assert Identity(entry) == Identity(merged[index]);
    assert Named(bindings, merged[index]);
    assert Named(bindings, entry);
    forall identity | identity in positions
      ensures Collected(bindings[..n + 1], identity) == Some(next[positions[identity]].featureKeys)
    {
      CollectedNext(bindings, n, identity);
    }
    forall identity | identity !in positions ensures Collected(bindings[..n + 1], identity) == None {
      CollectedNext(bindings, n, identity);
    }
    IndexedAfterEdit(merged, positions, index, entry);
  }

  lemma IndexedAfterEdit(merged: seq<ResourceBinding>, positions: map<string, nat>, index: nat, entry: ResourceBinding)
    requires Indexed(merged, positions)
    requires index < |merged| && Identity(entry) == Identity(merged[index])
    ensures Indexed(merged[index := entry], positions)
  {
  }

  lemma MergeNew(bindings: seq<ResourceBinding>, n: nat, merged: seq<ResourceBinding>, positions: map<string, nat>)
    requires n < |bindings| && MergedSoFar(bindings, n, merged, positions)
    requires Identity(bindings[n]) !in positions
    ensures MergedSoFar(bindings, n + 1, merged + [bindings[n]], positions[Identity(bindings[n]) := |merged|])
  {
    var key := Identity(bindings[n]);
    var known := positions[key := |merged|];
    var next := merged + [bindings[n]];
    assert Named(bindings, bindings[n]);
    forall identity | identity in known
      ensures Collected(bindings[..n + 1], identity) == Some(next[known[identity]].featureKeys)
    {
      CollectedNext(bindings, n, identity);
    }
    forall identity | identity !in known ensures Collected(bindings[..n + 1], identity) == None {
      CollectedNext(bindings, n, identity);
    }
  }

  lemma CollectedNext(bindings: seq<ResourceBinding>, n: nat, identity: string)
    requires n < |bindings|
    ensures Collected(bindings[..n + 1], identity)
         == if Identity(bindings[n]) != identity then Collected(bindings[..n], identity)
            else if Collected(bindings[..n], identity).None? then Some(bindings[n].featureKeys)
            else Some(Join(Collected(bindings[..n], identity).value, bindings[n].featureKeys))
  {
    assert bindings[..n + 1][..n] == bindings[..n];
  }

  /** Two operations without a colon, or one operation, never share an identity across different pairs. */
  lemma IdentityIsInjective(a: ResourceBinding, b: ResourceBinding)
    requires Identity(a) == Identity(b)
    requires a.operation == b.operation || (':' !in a.operation && ':' !in b.operation)
    ensures a.resourceKey == b.resourceKey && a.operation == b.operation
  {
    assert |Identity(a)| == |a.resourceKey| + 1 + |a.operation|;
    assert |Identity(b)| == |b.resourceKey| + 1 + |b.operation|;
    var n := |a.resourceKey|;
    assert |b.resourceKey| == n by {
      if |a.resourceKey| < |b.resourceKey| {
        LongerKeyTakesAColon(a, b);
      } else if |b.resourceKey| < |a.resourceKey| {
        LongerKeyTakesAColon(b, a);
      }
    }
    assert a.resourceKey == Identity(a)[..n] == Identity(b)[..n] == b.resourceKey;
    assert a.operation == Identity(a)[n + 1..] == Identity(b)[n + 1..] == b.operation;
  }

  lemma LongerKeyTakesAColon(a: ResourceBinding, b: ResourceBinding)
    requires Identity(a) == Identity(b) && |a.resourceKey| < |b.resourceKey|
    ensures ':' in a.operation
  {
    assert |Identity(a)| == |a.resourceKey| + 1 + |a.operation|;
    assert |Identity(b)| == |b.resourceKey| + 1 + |b.operation|;
    assert Identity(b)[|b.resourceKey|] == ':';
    assert Identity(a)[|b.resourceKey|] == a.operation[|b.resourceKey| - |a.resourceKey| - 1];
  }
}
