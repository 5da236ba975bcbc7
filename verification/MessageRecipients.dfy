/**
The recipients a send is allowed to name.
*/
module MessageRecipients {
  import opened Options
  import opened MessageStatus

  const MaxRecipients := 1000

  predicate Acceptable(scope: Scope, requested: seq<UserId>) {
    && (if scope == Everyone then requested == [] else 0 < |requested| <= MaxRecipients)
    && forall i :: 0 <= i < |requested| ==> requested[i] > 0
  }

  /** Where an account is named first. */
  function FirstAt(requested: seq<UserId>, id: UserId): (at: nat)
    ensures at <= |requested|
    ensures id in requested <==> at < |requested|
    ensures at < |requested| ==> requested[at] == id
    ensures forall i :: 0 <= i < at ==> requested[i] != id
  {
    if requested == [] || requested[0] == id then 0 else 1 + FirstAt(requested[1..], id)
  }

  /** Each named account once, in the order of first mention. */
  ghost predicate Distinct(requested: seq<UserId>, ids: seq<UserId>) {
    && (forall id :: id in ids <==> id in requested)
    && (forall i, j :: 0 <= i < j < |ids| ==> FirstAt(requested, ids[i]) < FirstAt(requested, ids[j]))
  }

  lemma FirstAtPrefix(requested: seq<UserId>, n: nat, id: UserId)
    requires n <= |requested|
    ensures FirstAt(requested, id) < n <==> id in requested[..n]
    ensures FirstAt(requested[..n], id) == if FirstAt(requested, id) < n then FirstAt(requested, id) else n
  {
    var at, within := FirstAt(requested, id), FirstAt(requested[..n], id);
    assert forall i :: 0 <= i < n ==> requested[..n][i] == requested[i];
  }

  /** None is the refusal of an unusable list. */
  method Recipients(scope: Scope, requested: seq<UserId>) returns (result: Option<seq<UserId>>)
    ensures result.Some? <==> Acceptable(scope, requested)
    ensures result.Some? ==> Distinct(requested, result.value)
  {
    if (scope == Everyone && |requested| != 0) ||
       (scope == Targeted && (|requested| == 0 || |requested| > MaxRecipients)) {
      return None;
    }
    var ids: seq<UserId> := [];
    var seen: set<UserId> := {};
    for n := 0 to |requested|
      invariant forall i :: 0 <= i < n ==> requested[i] > 0
      invariant forall id :: id in seen <==> id in requested[..n]
      invariant forall id :: id in ids <==> id in requested[..n]
      invariant forall i, j :: 0 <= i < j < |ids| ==> FirstAt(requested, ids[i]) < FirstAt(requested, ids[j])
    {
      var id := requested[n];
      if id <= 0 { return None; }
      assert requested[..n + 1] == requested[..n] + [id];
      if id !in seen {
        forall i | 0 <= i < |ids| ensures FirstAt(requested, ids[i]) < FirstAt(requested, id) {
          FirstAtPrefix(requested, n, ids[i]);
          FirstAtPrefix(requested, n, id);
        }
        ids := ids + [id];
        seen := seen + {id};
      }
    }
    assert requested[..|requested|] == requested;
    result := Some(ids);
  }
}
