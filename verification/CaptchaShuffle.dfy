/**
The random source of the captcha and the shuffle of the grid cells.
*/
module CaptchaShuffle {
  datatype Draw = Drawn(value: int) | SourceFailed | NonPositiveBound

  ghost predicate Lists(order: seq<int>, k: int) {
    exists i :: 0 <= i < |order| && order[i] == k
  }

  ghost predicate Permutes(order: seq<int>, n: nat) {
    && |order| == n
    && (forall i :: 0 <= i < n ==> 0 <= order[i] < n)
    && (forall i, j :: 0 <= i < j < n ==> order[i] != order[j])
    && (forall k :: 0 <= k < n ==> Lists(order, k))
  }

  function Swapped(order: seq<int>, i: nat, j: nat): seq<int>
    requires i < |order| && j < |order|
  {
    order[i := order[j]][j := order[i]]
  }

  lemma SwapPermutes(order: seq<int>, n: nat, i: nat, j: nat)
    requires Permutes(order, n) && i < n && j < n
    ensures Permutes(Swapped(order, i, j), n)
  {
    var next := Swapped(order, i, j);
    forall k | 0 <= k < n ensures Lists(next, k) {
      assert Lists(order, k);
      var at :| 0 <= at < n && order[at] == k;
      assert next[if at == i then j else if at == j then i else at] == k;
    }
  }

  /** An arbitrary source; `broken` records whether a read from it ever failed, and `drawn` what it has yielded. */
  class RandomSource {
    var broken: bool
    ghost var drawn: seq<int>

    constructor ()
      ensures !broken && drawn == []
    {
      broken := false;
      drawn := [];
    }

    method Int(maximum: int) returns (draw: Draw)
      modifies this
      ensures draw.NonPositiveBound? <==> maximum <= 0
      ensures draw.Drawn? ==> 0 <= draw.value < maximum
      ensures broken <==> old(broken) || draw.SourceFailed?
      ensures drawn == old(drawn) + if draw.Drawn? then [draw.value] else []
    {
      if maximum <= 0 { return NonPositiveBound; }
      var failed: bool := *;
      if failed {
        broken := true;
        return SourceFailed;
      }
      var value: int := *;
      draw := Drawn(if 0 <= value < maximum then value else 0);
      drawn := drawn + [draw.value];
    }
  }

  /** Draws for the positions from `index` down to 1. */
  predicate ValidDraws(index: int, draws: seq<int>) {
    && |draws| == (if index > 0 then index else 0)
    && forall k :: 0 <= k < |draws| ==> 0 <= draws[k] <= index - k
  }

  /** Swapping the positions from `index` down with the drawn ones. */
  function Shuffled(values: seq<int>, index: int, draws: seq<int>): (shuffled: seq<int>)
    requires index < |values| && |draws| <= index + 1
    requires forall k :: 0 <= k < |draws| ==> 0 <= draws[k] <= index - k
    ensures |shuffled| == |values| && shuffled[index + 1..] == values[index + 1..]
    decreases draws
  {
    if draws == [] then values
    else
      var next := Swapped(values, index, draws[0]);
      assert next[index + 1..] == values[index + 1..];
      var rest := Shuffled(next, index - 1, draws[1..]);
      assert rest[index + 1..] == rest[index..][1..] && next[index..][1..] == next[index + 1..];
      rest
  }

  lemma {:induction false} ShuffledOnce(values: seq<int>, index: int, draws: seq<int>, last: int)
    requires index < |values| && |draws| <= index && 0 <= last <= index - |draws|
    requires forall k :: 0 <= k < |draws| ==> 0 <= draws[k] <= index - k
    ensures Shuffled(values, index, draws + [last]) == Swapped(Shuffled(values, index, draws), index - |draws|, last)
    decreases draws
  {
    if draws == [] {
      assert [] + [last] == [last];
    } else {
      assert (draws + [last])[1..] == draws[1..] + [last];
      ShuffledOnce(Swapped(values, index, draws[0]), index - 1, draws[1..], last);
    }
  }

  predicate DistinctInts(values: seq<int>) {
    forall i, j :: 0 <= i < j < |values| ==> values[i] != values[j]
  }

  /** Different draws give different orders. */
  lemma {:induction false} DifferentDrawsDifferentOrders(values: seq<int>, index: int, a: seq<int>, b: seq<int>)
    requires -1 <= index < |values| && ValidDraws(index, a) && ValidDraws(index, b) && DistinctInts(values)
    requires Shuffled(values, index, a) == Shuffled(values, index, b)
    ensures a == b
    decreases a
  {
    if index > 0 {
      FirstDrawShows(values, index, a);
      FirstDrawShows(values, index, b);
      assert a[0] == b[0];
      SwapStaysDistinct(values, index, a[0]);
      DifferentDrawsDifferentOrders(Swapped(values, index, a[0]), index - 1, a[1..], b[1..]);
      assert a == [a[0]] + a[1..] && b == [b[0]] + b[1..];
    }
  }

  lemma FirstDrawShows(values: seq<int>, index: int, draws: seq<int>)
    requires 0 < index < |values| && ValidDraws(index, draws)
    ensures Shuffled(values, index, draws)[index] == values[draws[0]]
    ensures Shuffled(values, index, draws) == Shuffled(Swapped(values, index, draws[0]), index - 1, draws[1..])
  {
    SettledAt(Swapped(values, index, draws[0]), index - 1, draws[1..]);
  }

  lemma SwapStaysDistinct(values: seq<int>, i: nat, j: nat)
    requires i < |values| && j < |values| && DistinctInts(values)
    ensures DistinctInts(Swapped(values, i, j))
  {
  }

  /** A shuffle of the positions up to `index` leaves the next one alone. */
  lemma SettledAt(values: seq<int>, index: int, draws: seq<int>)
    requires 0 <= index + 1 < |values| && |draws| <= index + 1
    requires forall k :: 0 <= k < |draws| ==> 0 <= draws[k] <= index - k
    ensures Shuffled(values, index, draws)[index + 1] == values[index + 1]
  {
    var shuffled := Shuffled(values, index, draws);
    assert shuffled[index + 1..][0] == values[index + 1..][0];
  }

  /** Every order is reached: with the previous lemma, by exactly one list of draws. */
  lemma {:induction false} EveryOrderIsReached(values: seq<int>, index: int, target: seq<int>) returns (draws: seq<int>)
    requires 0 <= index < |values| == |target| && multiset(values) == multiset(target)
    requires values[index + 1..] == target[index + 1..]
    ensures ValidDraws(index, draws) && Shuffled(values, index, draws) == target
    decreases index
  {
    hide Shuffled, Swapped;
    if index == 0 {
      draws := [];
      OnlyOneLeft(values, target);
      NothingShuffled(values, index);
    } else {
      var at := PlaceInFront(values, index, target);
      SwapInFront(values, index, target, at);
      var rest := EveryOrderIsReached(Swapped(values, index, at), index - 1, target);
      draws := [at] + rest;
      FirstDraw(values, index, at, rest);
    }
  }

  lemma FirstDraw(values: seq<int>, index: int, at: int, rest: seq<int>)
    requires 0 < index < |values| && 0 <= at <= index && ValidDraws(index - 1, rest)
    ensures ValidDraws(index, [at] + rest)
    ensures Shuffled(values, index, [at] + rest) == Shuffled(Swapped(values, index, at), index - 1, rest)
  {
    var draws := [at] + rest;
    assert draws[1..] == rest;
    assert forall k :: 1 <= k < |draws| ==> draws[k] == rest[k - 1];
  }

  lemma SwapInFront(values: seq<int>, index: int, target: seq<int>, at: int)
    requires 0 <= at <= index < |values| == |target| && values[at] == target[index] &&
             values[index + 1..] == target[index + 1..]
    ensures var next := Swapped(values, index, at); multiset(next) == multiset(values) &&
                                                    next[index..] == target[index..]
  {
    var next := Swapped(values, index, at);
    assert next[index..] == [values[at]] + values[index + 1..];
    assert target[index..] == [target[index]] + target[index + 1..];
  }

  lemma OnlyOneLeft(values: seq<int>, target: seq<int>)
    requires |values| == |target| > 0 && multiset(values) == multiset(target) && values[1..] == target[1..]
    ensures values == target
  {
    assert values == [values[0]] + values[1..] && target == [target[0]] + target[1..];
    assert multiset{values[0]} == multiset(values) - multiset(values[1..]);
    assert multiset{target[0]} == multiset(target) - multiset(target[1..]);
    assert values[0] in multiset{target[0]};
  }

  lemma PlaceInFront(values: seq<int>, index: int, target: seq<int>) returns (at: int)
    requires 0 <= index < |values| == |target| && multiset(values) == multiset(target)
    requires values[index + 1..] == target[index + 1..]
    ensures 0 <= at <= index && values[at] == target[index]
  {
    assert values == values[..index + 1] + values[index + 1..] && target == target[..index + 1] + target[index + 1..];
    assert multiset(values[..index + 1]) == multiset(values) - multiset(values[index + 1..]);
    assert multiset(target[..index + 1]) == multiset(target) - multiset(target[index + 1..]);
    assert target[..index + 1][index] in multiset(target[..index + 1]);
    at :| 0 <= at < |values[..index + 1]| && values[..index + 1][at] == target[index];
  }

  lemma NothingShuffled(values: seq<int>, index: int)
    requires -1 <= index < |values|
    ensures Shuffled(values, index, []) == values
  {
  }

  /** One draw per position, each of them applied. */
  method ShuffleInts(values: array<int>, random: RandomSource) returns (draw: Draw, ghost draws: seq<int>)
    requires Permutes(values[..], values.Length)
    modifies values, random
    ensures Permutes(values[..], values.Length)
    ensures !draw.NonPositiveBound?
    ensures old(random.drawn) <= random.drawn
    ensures random.broken <==> old(random.broken) || draw.SourceFailed?
    ensures draw.Drawn? ==> ValidDraws(values.Length - 1, draws) && random.drawn == old(random.drawn) + draws &&
                            values[..] == Shuffled(old(values[..]), values.Length - 1, draws)
  {
    hide Permutes, Shuffled, Lists;
    draw := Drawn(0);
    draws := [];
    ghost var from := values[..];
    NothingShuffled(from, values.Length - 1);
    var index := values.Length - 1;
    while index > 0
      invariant -1 <= index < values.Length && |draws| == values.Length - 1 - index &&
                (index == -1 ==> values.Length == 0)
      invariant forall k :: 0 <= k < |draws| ==> 0 <= draws[k] <= values.Length - 1 - k
      invariant values[..] == Shuffled(from, values.Length - 1, draws)
      invariant Permutes(values[..], values.Length)
      invariant draw.Drawn? && random.broken == old(random.broken) && random.drawn == old(random.drawn) + draws
    {
      draw := random.Int(index + 1);
      if !draw.Drawn? { return; }
      var other := draw.value;
      SwapPermutes(values[..], values.Length, index, other);
      ShuffledOnce(from, values.Length - 1, draws, other);
      ghost var was := values[..];
      values[index], values[other] := values[other], values[index];
      assert values[..] == Swapped(was, index, other);
      draws := draws + [other];
      index := index - 1;
    }
  }
}
