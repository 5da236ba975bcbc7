/**
Placement of the captcha glyphs: random packing, a grid when that fails, and
random moves away from the grid. Every random draw is arbitrary.
*/
module CaptchaLayout {
  import opened Arithmetic
  import opened CaptchaShuffle

  const CANVAS_PADDING := 4
  const GLYPH_GAP := 0
  const LAYOUT_ATTEMPTS := 128
  const PLACEMENT_ATTEMPTS := 256
  const MOVES_PER_GLYPH := 256

  datatype Point = Point(x: int, y: int)

  /** Half the width and half the height of a rotated glyph. */
  datatype Size = Size(x: int, y: int)

  datatype Layout = Placed(centers: seq<Point>) | DoesNotFit | CellTooSmall | RandomFailed

  function Area(size: Size): int {
    size.x * size.y
  }

  /** The rectangles around two centers share no interior point. */
  predicate Disjoint(a: Point, sizeA: Size, b: Point, sizeB: Size) {
    || a.x + sizeA.x <= b.x - sizeB.x
    || b.x + sizeB.x <= a.x - sizeA.x
    || a.y + sizeA.y <= b.y - sizeB.y
    || b.y + sizeB.y <= a.y - sizeA.y
  }

  /** The check the code makes. */
  predicate Separated(a: Point, sizeA: Size, b: Point, sizeB: Size) {
    || Abs(a.x - b.x) >= sizeA.x + sizeB.x + GLYPH_GAP
    || Abs(a.y - b.y) >= sizeA.y + sizeB.y + GLYPH_GAP
  }

  lemma SeparatedMeansDisjoint(a: Point, sizeA: Size, b: Point, sizeB: Size)
    ensures Separated(a, sizeA, b, sizeB) <==> Disjoint(a, sizeA, b, sizeB)
  {
  }

  method LargestFrom(dimensions: seq<Size>, order: seq<int>, left: nat) returns (largest: nat)
    requires Permutes(order, |dimensions|) && left < |dimensions|
    ensures left <= largest < |dimensions|
    ensures forall j :: left <= j < |dimensions| ==> Area(dimensions[order[largest]]) >= Area(dimensions[order[j]])
  {
    hide Area;
    largest := left;
    for right := left + 1 to |dimensions|
      invariant left <= largest < |dimensions|
      invariant forall j :: left <= j < right ==> Area(dimensions[order[largest]]) >= Area(dimensions[order[j]])
    {
      if Area(dimensions[order[right]]) > Area(dimensions[order[largest]]) {
        largest := right;
      }
    }
  }

  /** The first entries are in place: none of the later ones is larger. */
  ghost predicate LargestPlaced(dimensions: seq<Size>, order: seq<int>, left: nat)
    requires Permutes(order, |dimensions|) && left <= |dimensions|
  {
    forall i, j :: 0 <= i < left && i < j < |dimensions| ==> Area(dimensions[order[i]]) >= Area(dimensions[order[j]])
  }

  lemma SelectionStep(dimensions: seq<Size>, order: seq<int>, left: nat, largest: nat)
    requires Permutes(order, |dimensions|) && left <= largest < |dimensions|
    requires LargestPlaced(dimensions, order, left)
    requires forall j :: left <= j < |dimensions| ==> Area(dimensions[order[largest]]) >= Area(dimensions[order[j]])
    ensures Permutes(Swapped(order, left, largest), |dimensions|)
    ensures LargestPlaced(dimensions, Swapped(order, left, largest), left + 1)
  {
    hide Area;
    SwapPermutes(order, |dimensions|, left, largest);
  }

  /** A permutation that puts larger glyphs first. */
  method LargestFirst(dimensions: seq<Size>) returns (order: array<int>)
    ensures fresh(order) && Permutes(order[..], |dimensions|)
    ensures LargestPlaced(dimensions, order[..], |dimensions|)
  {
    hide Permutes, LargestPlaced;
    var n := |dimensions|;
    order := new int[n](i => i);
    IdentityPermutes(order[..], n);
    NothingPlaced(dimensions, order[..]);
    for left := 0 to n
      invariant Permutes(order[..], n)
      invariant LargestPlaced(dimensions, order[..], left)
    {
      var largest := LargestFrom(dimensions, order[..], left);
      SelectionStep(dimensions, order[..], left, largest);
      ghost var was := order[..];
      order[left], order[largest] := order[largest], order[left];
      assert order[..] == Swapped(was, left, largest);
    }
  }

  lemma IdentityPermutes(order: seq<int>, n: nat)
    requires |order| == n && forall i :: 0 <= i < n ==> order[i] == i
    ensures Permutes(order, n)
  {
    forall k | 0 <= k < n ensures Lists(order, k) {
      assert order[k] == k;
    }
  }

  lemma NothingPlaced(dimensions: seq<Size>, order: seq<int>)
    requires Permutes(order, |dimensions|)
    ensures LargestPlaced(dimensions, order, 0)
  {
  }

  predicate Inside(width: int, height: int, center: Point, size: Size) {
    && CANVAS_PADDING <= center.x - size.x
    && center.x + size.x <= width - CANVAS_PADDING
    && CANVAS_PADDING <= center.y - size.y
    && center.y + size.y <= height - CANVAS_PADDING
  }

  /** Every rectangle lies inside the padded canvas and no two of them overlap. */
  ghost predicate Laid(width: int, height: int, dimensions: seq<Size>, centers: seq<Point>) {
    && |centers| == |dimensions|
    && (forall i :: 0 <= i < |centers| ==> Inside(width, height, centers[i], dimensions[i]))
    && (forall i, j :: 0 <= i < j < |centers| ==> Disjoint(centers[i], dimensions[i], centers[j], dimensions[j]))
  }

  /** The same for the glyphs placed so far. */
  ghost predicate LaidSoFar(width: int, height: int, dimensions: seq<Size>, centers: seq<Point>, placed: seq<int>) {
    && |centers| == |dimensions|
    && (forall p :: 0 <= p < |placed| ==> 0 <= placed[p] < |dimensions|)
    && (forall p :: 0 <= p < |placed| ==> Inside(width, height, centers[placed[p]], dimensions[placed[p]]))
    && (forall p, q :: 0 <= p < q < |placed| ==>
          Disjoint(centers[placed[p]], dimensions[placed[p]], centers[placed[q]], dimensions[placed[q]]))
  }

  lemma AllPlacedIsLaid(width: int, height: int, dimensions: seq<Size>, centers: seq<Point>, order: seq<int>)
    requires Permutes(order, |dimensions|) && LaidSoFar(width, height, dimensions, centers, order)
    ensures Laid(width, height, dimensions, centers)
  {
    hide Inside;
    forall i | 0 <= i < |centers| ensures Inside(width, height, centers[i], dimensions[i]) {
      assert Lists(order, i);
      var p :| 0 <= p < |order| && order[p] == i;
      assert Inside(width, height, centers[order[p]], dimensions[order[p]]);
    }
    forall i, j | 0 <= i < j < |centers| ensures Disjoint(centers[i], dimensions[i], centers[j], dimensions[j]) {
      assert Lists(order, i) && Lists(order, j);
      var p :| 0 <= p < |order| && order[p] == i;
      var q :| 0 <= q < |order| && order[q] == j;
      assert Disjoint(centers[order[p]], dimensions[order[p]], centers[order[q]], dimensions[order[q]]);
    }
  }

  /** Adding a glyph that is inside and clear of the others. */
  lemma OneMorePlaced(width: int, height: int, dimensions: seq<Size>, before: seq<Point>, after: seq<Point>,
                      placed: seq<int>, index: int)
    requires LaidSoFar(width, height, dimensions, before, placed)
    requires 0 <= index < |dimensions| == |after|
    requires forall p :: 0 <= p < |placed| ==> placed[p] != index && after[placed[p]] == before[placed[p]]
    requires Inside(width, height, after[index], dimensions[index])
    requires ClearOf(after[index], dimensions[index], before, dimensions, placed)
    ensures LaidSoFar(width, height, dimensions, after, placed + [index])
  {
    hide Inside;
    var next := placed + [index];
    forall p, q | 0 <= p < q < |next|
      ensures Disjoint(after[next[p]], dimensions[next[p]], after[next[q]], dimensions[next[q]])
    {
      if q == |placed| {
        assert Disjoint(after[index], dimensions[index], before[placed[p]], dimensions[placed[p]]);
      }
    }
  }

  ghost predicate ClearOf(candidate: Point, size: Size, centers: seq<Point>, dimensions: seq<Size>, placed: seq<int>)
    requires |centers| == |dimensions| && forall p :: 0 <= p < |placed| ==> 0 <= placed[p] < |dimensions|
  {
    forall p :: 0 <= p < |placed| ==> Disjoint(candidate, size, centers[placed[p]], dimensions[placed[p]])
  }

  method CenterOverlaps(candidate: Point, size: Size, centers: seq<Point>, dimensions: seq<Size>, placed: seq<int>)
    returns (overlaps: bool)
    requires |centers| == |dimensions| && forall p :: 0 <= p < |placed| ==> 0 <= placed[p] < |dimensions|
    ensures overlaps <==> !ClearOf(candidate, size, centers, dimensions, placed)
  {
    for n := 0 to |placed|
      invariant forall p :: 0 <= p < n ==> Disjoint(candidate, size, centers[placed[p]], dimensions[placed[p]])
    {
      SeparatedMeansDisjoint(candidate, size, centers[placed[n]], dimensions[placed[n]]);
      if !Separated(candidate, size, centers[placed[n]], dimensions[placed[n]]) { return true; }
    }
    overlaps := false;
  }

  // What the random attempts drew

  /** The centers drawn for each glyph in turn, and where the glyphs were in the end. */
  datatype Attempt = Attempt(centers: seq<Point>, tries: seq<seq<Point>>)

  ghost predicate NoneClear(tried: seq<Point>, size: Size, centers: seq<Point>, dimensions: seq<Size>, placed: seq<int>)
    requires |centers| == |dimensions| && forall p :: 0 <= p < |placed| ==> 0 <= placed[p] < |dimensions|
  {
    forall k :: 0 <= k < |tried| ==> !ClearOf(tried[k], size, centers, dimensions, placed)
  }

  ghost predicate AllOverlap(dimensions: seq<Size>, order: seq<int>, centers: seq<Point>, n: nat, tried: seq<Point>)
    requires Permutes(order, |dimensions|) && |centers| == |dimensions| && n < |order|
  {
    NoneClear(tried, dimensions[order[n]], centers, dimensions, order[..n])
  }

  /** The n-th glyph of the order stands, clear of those before, at the last center drawn for it; the earlier ones
      overlapped. */
  ghost predicate PlacedBy(dimensions: seq<Size>, order: seq<int>, centers: seq<Point>, n: nat, tried: seq<Point>)
    requires Permutes(order, |dimensions|) && |centers| == |dimensions| && n < |order|
  {
    && 0 < |tried| <= PLACEMENT_ATTEMPTS
    && tried[|tried| - 1] == centers[order[n]]
    && ClearOf(centers[order[n]], dimensions[order[n]], centers, dimensions, order[..n])
    && AllOverlap(dimensions, order, centers, n, tried[..|tried| - 1])
  }

  ghost predicate Completed(dimensions: seq<Size>, order: seq<int>, a: Attempt)
    requires Permutes(order, |dimensions|)
  {
    && |a.centers| == |dimensions| && |a.tries| == |order|
    && forall n :: 0 <= n < |order| ==> PlacedBy(dimensions, order, a.centers, n, a.tries[n])
  }

  /** Some glyph overlapped wherever it was tried. */
  ghost predicate GaveUp(dimensions: seq<Size>, order: seq<int>, a: Attempt)
    requires Permutes(order, |dimensions|)
  {
    && |a.centers| == |dimensions| && 0 < |a.tries| <= |order|
    && (forall n :: 0 <= n < |a.tries| - 1 ==> PlacedBy(dimensions, order, a.centers, n, a.tries[n]))
    && |a.tries[|a.tries| - 1]| == PLACEMENT_ATTEMPTS
    && AllOverlap(dimensions, order, a.centers, |a.tries| - 1, a.tries[|a.tries| - 1])
  }

  lemma EntriesInRange(order: seq<int>, n: nat)
    requires Permutes(order, n)
    ensures |order| == n && forall i :: 0 <= i < n ==> 0 <= order[i] < n
  {
  }

  lemma DistinctEntries(order: seq<int>, n: nat)
    requires Permutes(order, n)
    ensures |order| == n
    ensures forall i :: 0 <= i < n ==> 0 <= order[i] < n
    ensures forall i, j :: 0 <= i < j < n ==> order[i] != order[j]
  {
  }

  /** An attempt that gave up did not complete. */
  lemma GaveUpIsNotCompleted(dimensions: seq<Size>, order: seq<int>, a: Attempt)
    requires Permutes(order, |dimensions|) && GaveUp(dimensions, order, a)
    ensures !Completed(dimensions, order, a)
  {
    hide ClearOf;
    var n := |a.tries| - 1;
    assert a.tries[n] == a.tries[n][..|a.tries[n]| - 1] + [a.tries[n][|a.tries[n]| - 1]];
  }

  /** Glyphs that were placed earlier stay when the next one is. */
  lemma PlacedByStays(dimensions: seq<Size>, order: seq<int>, before: seq<Point>, after: seq<Point>, n: nat, m: nat,
                      tried: seq<Point>)
    requires Permutes(order, |dimensions|) && |before| == |dimensions| && n < m < |order|
    requires |after| == |dimensions| && after == before[order[m] := after[order[m]]]
    requires PlacedBy(dimensions, order, before, n, tried)
    ensures PlacedBy(dimensions, order, after, n, tried)
  {
    assert forall p :: 0 <= p <= n ==> order[p] != order[m];
    assert forall p :: 0 <= p <= n ==> after[order[p]] == before[order[p]];
    var earlier := tried[..|tried| - 1];
    forall k | 0 <= k < |earlier| ensures !ClearOf(earlier[k], dimensions[order[n]], after, dimensions, order[..n]) {
      assert !ClearOf(earlier[k], dimensions[order[n]], before, dimensions, order[..n]);
    }
  }

  lemma OverlapsStay(dimensions: seq<Size>, order: seq<int>, before: seq<Point>, after: seq<Point>, n: nat,
                     tried: seq<Point>)
    requires Permutes(order, |dimensions|) && |before| == |dimensions| && n < |order|
    requires |after| == |dimensions| && after == before[order[n] := after[order[n]]]
    requires AllOverlap(dimensions, order, before, n, tried)
    ensures AllOverlap(dimensions, order, after, n, tried)
  {
    assert forall p :: 0 <= p < n ==> order[p] != order[n];
    assert forall p :: 0 <= p < n ==> after[order[p]] == before[order[p]];
    forall k | 0 <= k < |tried|
      ensures !ClearOf(tried[k], dimensions[order[n]], after, dimensions, order[..n])
    {
      assert !ClearOf(tried[k], dimensions[order[n]], before, dimensions, order[..n]);
    }
  }

  lemma LastPlaced(dimensions: seq<Size>, order: seq<int>, before: seq<Point>, after: seq<Point>, n: nat,
                   tried: seq<Point>)
    requires Permutes(order, |dimensions|) && |before| == |dimensions| && n < |order| && |tried| < PLACEMENT_ATTEMPTS
    requires |after| == |dimensions| && after == before[order[n] := after[order[n]]]
    requires AllOverlap(dimensions, order, before, n, tried)
    requires ClearOf(after[order[n]], dimensions[order[n]], before, dimensions, order[..n])
    ensures PlacedBy(dimensions, order, after, n, tried + [after[order[n]]])
  {
    assert forall p :: 0 <= p < n ==> order[p] != order[n];
    assert forall p :: 0 <= p < n ==> after[order[p]] == before[order[p]];
    OverlapsStay(dimensions, order, before, after, n, tried);
    assert (tried + [after[order[n]]])[..|tried|] == tried;
  }

  /** The first glyphs of the order were placed by their tries. */
  ghost predicate PlacedSoFar(dimensions: seq<Size>, order: seq<int>, centers: seq<Point>, tries: seq<seq<Point>>)
    requires Permutes(order, |dimensions|) && |centers| == |dimensions|
  {
    |tries| <= |order| && forall n :: 0 <= n < |tries| ==> PlacedBy(dimensions, order, centers, n, tries[n])
  }

  lemma NothingPlacedSoFar(dimensions: seq<Size>, order: seq<int>, centers: seq<Point>)
    requires Permutes(order, |dimensions|) && |centers| == |dimensions|
    ensures PlacedSoFar(dimensions, order, centers, [])
  {
  }

  lemma NextPlaced(dimensions: seq<Size>, order: seq<int>, before: seq<Point>, after: seq<Point>,
                   tries: seq<seq<Point>>, tried: seq<Point>)
    requires Permutes(order, |dimensions|) && |before| == |dimensions| && |after| == |dimensions|
    requires PlacedSoFar(dimensions, order, before, tries) && |tries| < |order| && |tried| < PLACEMENT_ATTEMPTS
    requires var n := |tries|;
             && after == before[order[n] := after[order[n]]]
             && AllOverlap(dimensions, order, before, n, tried)
             && ClearOf(after[order[n]], dimensions[order[n]], before, dimensions, order[..n])
    ensures PlacedSoFar(dimensions, order, after, tries + [tried + [after[order[|tries|]]]])
  {
    hide PlacedBy, Permutes, AllOverlap, ClearOf;
    LastPlaced(dimensions, order, before, after, |tries|, tried);
    forall k | 0 <= k < |tries| ensures PlacedBy(dimensions, order, after, k, tries[k]) {
      PlacedByStays(dimensions, order, before, after, k, |tries|, tries[k]);
    }
  }

  lemma LastGaveUp(dimensions: seq<Size>, order: seq<int>, centers: seq<Point>, tries: seq<seq<Point>>,
                   tried: seq<Point>)
    requires Permutes(order, |dimensions|) && |centers| == |dimensions|
    requires PlacedSoFar(dimensions, order, centers, tries) && |tries| < |order|
    requires |tried| == PLACEMENT_ATTEMPTS && AllOverlap(dimensions, order, centers, |tries|, tried)
    ensures GaveUp(dimensions, order, Attempt(centers, tries + [tried]))
  {
    hide PlacedBy, Permutes, AllOverlap;
  }

  lemma AllCompleted(dimensions: seq<Size>, order: seq<int>, centers: seq<Point>, tries: seq<seq<Point>>)
    requires Permutes(order, |dimensions|) && |centers| == |dimensions|
    requires PlacedSoFar(dimensions, order, centers, tries) && |tries| == |order|
    ensures Completed(dimensions, order, Attempt(centers, tries))
  {
    hide PlacedBy, Permutes;
  }

  class PointCaptcha {
    const width: int
    const height: int
    const random: RandomSource

    constructor (width: int, height: int, random: RandomSource)
      requires 240 <= width <= 800 && 140 <= height <= 500
      ensures this.width == width && this.height == height && this.random == random && Valid()
    {
      this.width := width;
      this.height := height;
      this.random := random;
    }

    predicate Valid() {
      240 <= width <= 800 && 140 <= height <= 500
    }

    function AvailableWidth(size: Size): int {
      width - 2 * (size.x + CANVAS_PADDING) + 1
    }

    function AvailableHeight(size: Size): int {
      height - 2 * (size.y + CANVAS_PADDING) + 1
    }

    /** The two numbers that a center stands for: how far it lies from the first one possible. */
    function Offsets(center: Point, size: Size): seq<int> {
      [center.x - size.x - CANVAS_PADDING, center.y - size.y - CANVAS_PADDING]
    }

    /** Every center that keeps the glyph inside can be drawn, and no other. */
    lemma EveryCenterIsDrawn(center: Point, size: Size)
      ensures Inside(width, height, center, size) <==>
                && 0 <= Offsets(center, size)[0] < AvailableWidth(size)
                && 0 <= Offsets(center, size)[1] < AvailableHeight(size)
    {
    }

    /** The center of the two numbers drawn, which keeps the glyph inside. */
    method RandomCenter(size: Size) returns (failure: Draw, center: Point)
      modifies random
      ensures failure.Drawn? ==> random.drawn == old(random.drawn) + Offsets(center, size)
      ensures old(random.drawn) <= random.drawn
      ensures random.broken <==> old(random.broken) || failure.SourceFailed?
      ensures failure.Drawn? ==> Inside(width, height, center, size)
      ensures failure.NonPositiveBound? ==> AvailableWidth(size) <= 0 || AvailableHeight(size) <= 0
    {
      center := Point(0, 0);
      var x, y;
      x := random.Int(AvailableWidth(size));
      if !x.Drawn? { return x, center; }
      y := random.Int(AvailableHeight(size));
      if !y.Drawn? { return y, center; }
      center := Point(size.x + CANVAS_PADDING + x.value, size.y + CANVAS_PADDING + y.value);
      failure := y;
    }

    ghost function AllOffsets(centers: seq<Point>, size: Size): seq<int> {
      if centers == [] then []
      else AllOffsets(centers[..|centers| - 1], size) + Offsets(centers[|centers| - 1], size)
    }

    /** The first drawn center that is clear of the glyphs already placed, among a bounded number of tries. */
    method PlaceOne(dimensions: seq<Size>, centers: seq<Point>, placed: seq<int>, index: int)
      returns (failure: Draw, found: bool, center: Point, ghost tried: seq<Point>)
      requires LaidSoFar(width, height, dimensions, centers, placed) && 0 <= index < |dimensions|
      requires AvailableWidth(dimensions[index]) > 0 && AvailableHeight(dimensions[index]) > 0
      modifies random
      ensures !failure.NonPositiveBound?
      ensures random.broken <==> old(random.broken) || failure.SourceFailed?
      ensures failure.Drawn? && found ==> Inside(width, height, center, dimensions[index])
                                          && ClearOf(center, dimensions[index], centers, dimensions, placed)
      ensures failure.Drawn? ==>
                && random.drawn == old(random.drawn) + AllOffsets(tried, dimensions[index])
                && if found then
                     && 0 < |tried| <= PLACEMENT_ATTEMPTS && tried[|tried| - 1] == center
                     && NoneClear(tried[..|tried| - 1], dimensions[index], centers, dimensions, placed)
                   else
                     |tried| == PLACEMENT_ATTEMPTS && NoneClear(tried, dimensions[index], centers, dimensions, placed)
    {
      hide ClearOf, Offsets, Inside;
      failure, center, found, tried := Drawn(0), Point(0, 0), false, [];
      for attempt := 0 to PLACEMENT_ATTEMPTS
        invariant failure.Drawn? && random.broken == old(random.broken) && |tried| == attempt
        invariant random.drawn == old(random.drawn) + AllOffsets(tried, dimensions[index])
        invariant NoneClear(tried, dimensions[index], centers, dimensions, placed)
      {
        failure, center := RandomCenter(dimensions[index]);
        if !failure.Drawn? { return; }
        ghost var earlier := tried;
        tried := tried + [center];
        assert tried[..attempt] == earlier;
        var overlaps := CenterOverlaps(center, dimensions[index], centers, dimensions, placed);
        if overlaps { continue; }
        found := true;
        return;
      }
    }

    /** The numbers drawn for the first glyphs of the order. */
    ghost function Numbers(dimensions: seq<Size>, order: seq<int>, tries: seq<seq<Point>>): seq<int>
      requires Permutes(order, |dimensions|) && |tries| <= |order|
    {
      if tries == [] then []
      else
        var n := |tries| - 1;
        Numbers(dimensions, order, tries[..n]) + AllOffsets(tries[n], dimensions[order[n]])
    }

    ghost predicate DrewSoFar(dimensions: seq<Size>, order: seq<int>, tries: seq<seq<Point>>, base: seq<int>,
                              drawn: seq<int>)
      requires Permutes(order, |dimensions|)
    {
      |tries| <= |order| && drawn == base + Numbers(dimensions, order, tries)
    }

    lemma NothingDrawn(dimensions: seq<Size>, order: seq<int>, base: seq<int>)
      requires Permutes(order, |dimensions|)
      ensures DrewSoFar(dimensions, order, [], base, base)
    {
    }

    lemma OneMoreDrawn(dimensions: seq<Size>, order: seq<int>, tries: seq<seq<Point>>, tried: seq<Point>,
                       base: seq<int>, drawn: seq<int>)
      requires Permutes(order, |dimensions|) && |tries| < |order|
      requires DrewSoFar(dimensions, order, tries, base, drawn)
      ensures DrewSoFar(dimensions, order, tries + [tried], base,
                        drawn + AllOffsets(tried, dimensions[order[|tries|]]))
    {
      assert (tries + [tried])[..|tries|] == tries;
    }

    lemma AllDrawn(dimensions: seq<Size>, order: seq<int>, tries: seq<seq<Point>>, base: seq<int>, drawn: seq<int>)
      requires Permutes(order, |dimensions|) && DrewSoFar(dimensions, order, tries, base, drawn)
      ensures |tries| <= |order| && drawn == base + Numbers(dimensions, order, tries)
    {
    }

    ghost function AllNumbers(dimensions: seq<Size>, order: seq<int>, attempts: seq<Attempt>): seq<int>
      requires Permutes(order, |dimensions|)
      requires forall i :: 0 <= i < |attempts| ==> |attempts[i].tries| <= |order|
    {
      if attempts == [] then []
      else
        var n := |attempts| - 1;
        AllNumbers(dimensions, order, attempts[..n]) + Numbers(dimensions, order, attempts[n].tries)
    }

    lemma PlacedNext(dimensions: seq<Size>, order: seq<int>, before: seq<Point>, after: seq<Point>,
                     tries: seq<seq<Point>>, tried: seq<Point>)
      requires Permutes(order, |dimensions|) && |before| == |dimensions| && |tries| < |order|
      requires PlacedSoFar(dimensions, order, before, tries) && 0 < |tried| <= PLACEMENT_ATTEMPTS
      requires var n, center := |tries|, tried[|tried| - 1];
               && after == before[order[n] := center]
               && LaidSoFar(width, height, dimensions, before, order[..n])
               && AllOverlap(dimensions, order, before, n, tried[..|tried| - 1])
               && Inside(width, height, center, dimensions[order[n]])
               && ClearOf(center, dimensions[order[n]], before, dimensions, order[..n])
      ensures LaidSoFar(width, height, dimensions, after, order[..|tries|] + [order[|tries|]])
      ensures PlacedSoFar(dimensions, order, after, tries + [tried])
    {
      DistinctEntries(order, |dimensions|);
      hide LaidSoFar, PlacedSoFar, AllOverlap, Inside, ClearOf, Permutes;
      var n := |tries|;
      OneMorePlaced(width, height, dimensions, before, after, order[..n], order[n]);
      NextPlaced(dimensions, order, before, after, tries, tried[..|tried| - 1]);
      assert tried == tried[..|tried| - 1] + [after[order[n]]];
    }

    /** One packing attempt in the given order; complete when every glyph found a place. */
    method PlaceInOrder(dimensions: seq<Size>, order: seq<int>, centers: array<Point>)
      returns (failure: Layout, complete: bool, ghost tries: seq<seq<Point>>)
      requires Permutes(order, |dimensions|) && centers.Length == |dimensions|
      modifies centers, random
      ensures random.broken <==> old(random.broken) || failure.RandomFailed?
      ensures failure.Placed? || failure.RandomFailed? || failure.DoesNotFit?
      ensures failure.Placed? && complete ==> Laid(width, height, dimensions, centers[..])
      ensures failure.DoesNotFit? ==> exists i :: 0 <= i < |dimensions| && !Fits(dimensions[i])
      ensures failure.Placed? ==>
                && |tries| <= |order| && random.drawn == old(random.drawn) + Numbers(dimensions, order, tries)
                && if complete then Completed(dimensions, order, Attempt(centers[..], tries))
                   else GaveUp(dimensions, order, Attempt(centers[..], tries))
    {
      EntriesInRange(order, |dimensions|);
      hide Laid, LaidSoFar, Inside, Disjoint, ClearOf, Permutes, Numbers, PlacedSoFar, Completed, GaveUp, NoneClear;
      hide AvailableWidth, AvailableHeight, AllOffsets, DrewSoFar;
      failure, complete, tries := Placed([]), false, [];
      var placed: seq<int> := [];
      NoneYetPlaced(width, height, dimensions, centers[..]);
      NothingPlacedSoFar(dimensions, order, centers[..]);
      NothingDrawn(dimensions, order, random.drawn);
      for n := 0 to |order|
        invariant placed == order[..n] && failure.Placed? && random.broken == old(random.broken)
        invariant LaidSoFar(width, height, dimensions, centers[..], placed)
        invariant |tries| == n && DrewSoFar(dimensions, order, tries, old(random.drawn), random.drawn)
        invariant PlacedSoFar(dimensions, order, centers[..], tries)
      {
        var index := order[n];
        if AvailableWidth(dimensions[index]) <= 0 || AvailableHeight(dimensions[index]) <= 0 {
          assert !Fits(dimensions[index]);
          return DoesNotFit, false, tries;
        }
        var draw, found, center;
        ghost var tried, before, drawn := [], centers[..], random.drawn;
        draw, found, center, tried := PlaceOne(dimensions, centers[..], placed, index);
        if !draw.Drawn? { return RandomFailed, false, tries; }
        OneMoreDrawn(dimensions, order, tries, tried, old(random.drawn), drawn);
        tries := tries + [tried];
        if !found {
          LastGaveUp(dimensions, order, before, tries[..n], tried);
          AllDrawn(dimensions, order, tries, old(random.drawn), random.drawn);
          return;
        }
        centers[index] := center;
        PlacedNext(dimensions, order, before, centers[..], tries[..n], tried);
        placed := placed + [index];
      }
      assert order[..|order|] == order;
      AllPlacedIsLaid(width, height, dimensions, centers[..], order);
      AllCompleted(dimensions, order, centers[..], tries);
      AllDrawn(dimensions, order, tries, old(random.drawn), random.drawn);
      complete := true;
    }

    predicate Fits(size: Size) {
      AvailableWidth(size) > 0 && AvailableHeight(size) > 0
    }

    /** A layout, or a reason why there is none: the source failed, a glyph exceeds the canvas, or it exceeds the grid
        cell
        it was dealt. */
    method RandomCenters(dimensions: seq<Size>)
      returns (layout: Layout, ghost order: seq<int>, ghost attempts: seq<Attempt>)
      requires Valid()
      modifies random
      ensures random.broken <==> old(random.broken) || layout.RandomFailed?
      ensures layout.CellTooSmall? ==> SomeCellTooSmall(dimensions)
      ensures layout.Placed? ==> Laid(width, height, dimensions, layout.centers)
      ensures layout.DoesNotFit? ==> exists i :: 0 <= i < |dimensions| && !Fits(dimensions[i])
      ensures layout.Placed? || layout.CellTooSmall? ==>
                ByAttempts(dimensions, order, attempts, layout, old(random.drawn), random.drawn)
    {
      hide Laid, Permutes, LargestPlaced, GaveUp, Completed, Numbers, AllNumbers, SomeCellTooSmall, ByAttempts;
      var centers := new Point[|dimensions|](_ => Point(0, 0));
      var listed := LargestFirst(dimensions);
      order, attempts := listed[..], [];
      NoNumbers(dimensions, order);
      for attempt := 0 to LAYOUT_ATTEMPTS
        invariant listed[..] == order && random.broken == old(random.broken) && |attempts| == attempt
        invariant forall i :: 0 <= i < |attempts| ==> |attempts[i].tries| <= |order|
        invariant forall i :: 0 <= i < |attempts| ==> GaveUp(dimensions, order, attempts[i])
        invariant random.drawn == old(random.drawn) + AllNumbers(dimensions, order, attempts)
      {
        var failure, complete;
        ghost var tries, earlier := [], attempts;
        failure, complete, tries := PlaceInOrder(dimensions, listed[..], centers);
        if !failure.Placed? { return failure, order, attempts; }
        attempts := attempts + [Attempt(centers[..], tries)];
        OneMoreAttempt(dimensions, order, earlier, Attempt(centers[..], tries));
        if complete {
          ByLast(dimensions, order, earlier, Attempt(centers[..], tries), old(random.drawn), random.drawn);
          return Placed(centers[..]), order, attempts;
        }
      }
      ghost var before := random.drawn;
      layout := GridCenters(dimensions, listed[..]);
      ByGrid(dimensions, order, attempts, layout, old(random.drawn), before, random.drawn);
    }

    lemma NoNumbers(dimensions: seq<Size>, order: seq<int>)
      requires Permutes(order, |dimensions|)
      ensures AllNumbers(dimensions, order, []) == []
    {
    }

    lemma OneMoreAttempt(dimensions: seq<Size>, order: seq<int>, attempts: seq<Attempt>, last: Attempt)
      requires Permutes(order, |dimensions|) && |last.tries| <= |order|
      requires forall i :: 0 <= i < |attempts| ==> |attempts[i].tries| <= |order|
      ensures AllNumbers(dimensions, order, attempts + [last])
           == AllNumbers(dimensions, order, attempts) + Numbers(dimensions, order, last.tries)
    {
      assert (attempts + [last])[..|attempts|] == attempts;
    }

    lemma ByLast(dimensions: seq<Size>, order: seq<int>, attempts: seq<Attempt>, last: Attempt, before: seq<int>,
                 after: seq<int>)
      requires Permutes(order, |dimensions|) && LargestPlaced(dimensions, order, |dimensions|)
      requires |attempts| < LAYOUT_ATTEMPTS && |last.tries| <= |order|
      requires forall i :: 0 <= i < |attempts| ==> |attempts[i].tries| <= |order|
      requires forall i :: 0 <= i < |attempts| ==> GaveUp(dimensions, order, attempts[i])
      requires Completed(dimensions, order, last)
      requires after == before + AllNumbers(dimensions, order, attempts + [last])
      ensures ByAttempts(dimensions, order, attempts + [last], Placed(last.centers), before, after)
    {
      hide Permutes, LargestPlaced, GaveUp, Completed, Numbers, AllNumbers;
    }

    lemma ByGrid(dimensions: seq<Size>, order: seq<int>, attempts: seq<Attempt>, layout: Layout, before: seq<int>,
                 drawn: seq<int>, after: seq<int>)
      requires Permutes(order, |dimensions|) && LargestPlaced(dimensions, order, |dimensions|)
      requires |attempts| == LAYOUT_ATTEMPTS
      requires forall i :: 0 <= i < |attempts| ==> |attempts[i].tries| <= |order|
      requires forall i :: 0 <= i < |attempts| ==> GaveUp(dimensions, order, attempts[i])
      requires drawn == before + AllNumbers(dimensions, order, attempts) && drawn <= after
      ensures ByAttempts(dimensions, order, attempts, layout, before, after)
    {
      var last := attempts[|attempts| - 1];
      assert GaveUp(dimensions, order, last);
      GaveUpIsNotCompleted(dimensions, order, last);
      hide Permutes, LargestPlaced, GaveUp, Completed, Numbers, AllNumbers;
    }

    /**
    The layout is that of the first attempt in which every glyph found a place,
    the larger ones first; the grid is used after the last attempt has failed.
    */
    ghost predicate ByAttempts(dimensions: seq<Size>, order: seq<int>, attempts: seq<Attempt>, layout: Layout,
                               before: seq<int>, after: seq<int>)
    {
      && Permutes(order, |dimensions|) && LargestPlaced(dimensions, order, |dimensions|)
      && (forall i :: 0 <= i < |attempts| ==> |attempts[i].tries| <= |order|)
      && (forall i :: 0 <= i < |attempts| - 1 ==> GaveUp(dimensions, order, attempts[i]))
      && 0 < |attempts| <= LAYOUT_ATTEMPTS
      && var last := attempts[|attempts| - 1];
         if Completed(dimensions, order, last) && layout == Placed(last.centers) then
           after == before + AllNumbers(dimensions, order, attempts)
         else
           && |attempts| == LAYOUT_ATTEMPTS && GaveUp(dimensions, order, last)
           && before + AllNumbers(dimensions, order, attempts) <= after
    }

    /** A random center in a grid cell. */
    method CenterInCell(size: Size, cell: int, columns: int) returns (fits: bool, draw: Draw, center: Point)
      requires columns > 0 && 0 <= cell < 2 * columns
      modifies random
      ensures fits == FitsCell(size, cell, columns)
      ensures random.broken <==> old(random.broken) || draw.SourceFailed?
      ensures fits ==> !draw.NonPositiveBound?
      ensures !fits ==> draw.Drawn?
      ensures fits && draw.Drawn? ==> InCell(center, size, cell, columns)
      ensures old(random.drawn) <= random.drawn
    {
      hide CellEdge;
      draw, center := Drawn(0), Point(0, 0);
      var rows := 2;
      var innerWidth := width - 2 * CANVAS_PADDING;
      var innerHeight := height - 2 * CANVAS_PADDING;
      var column, row := cell % columns, cell / columns;
      var left := CellEdge(innerWidth, columns, column);
      var right := CellEdge(innerWidth, columns, column + 1);
      var top := CellEdge(innerHeight, rows, row);
      var bottom := CellEdge(innerHeight, rows, row + 1);
      var availableWidth := right - left - 2 * size.x + 1;
      var availableHeight := bottom - top - 2 * size.y + 1;
      fits := availableWidth > 0 && availableHeight > 0;
      if !fits { return; }
      var x := random.Int(availableWidth);
      if !x.Drawn? { return fits, x, center; }
      draw := random.Int(availableHeight);
      if draw.Drawn? {
        center := Point(left + size.x + x.value, top + size.y + draw.value);
      }
    }

    method GridCenters(dimensions: seq<Size>, order: seq<int>) returns (layout: Layout)
      requires Valid() && Permutes(order, |dimensions|)
      modifies random
      ensures layout.Placed? ==> Laid(width, height, dimensions, layout.centers)
      ensures layout.Placed? || layout.RandomFailed? || layout.CellTooSmall?
      ensures random.broken <==> old(random.broken) || layout.RandomFailed?
      ensures layout.CellTooSmall? ==> SomeCellTooSmall(dimensions)
      ensures old(random.drawn) <= random.drawn
    {
      hide Laid, Permutes, FitsCell, InCell, SomeCellTooSmall, InCells;
      if |dimensions| == 0 { return NothingToPlace(); }
      var columns, rows := (|dimensions| + 1) / 2, 2;
      var cellOrder := new int[columns * rows](i => i);
      IdentityPermutes(cellOrder[..], cellOrder.Length);
      ghost var draws;
      var shuffled;
      shuffled, draws := ShuffleInts(cellOrder, random);
      if !shuffled.Drawn? { return RandomFailed; }
      ghost var cells := cellOrder[..];
      var centers := new Point[|dimensions|](_ => Point(0, 0));
      GridStarts(dimensions, order, cells, centers[..], columns);
      for placement := 0 to |dimensions|
        invariant cellOrder[..] == cells && random.broken == old(random.broken) && old(random.drawn) <= random.drawn
        invariant InCells(dimensions, order, cells, centers[..], columns, placement)
      {
        var glyph, cell := EntryOfPermutation(order, |dimensions|, placement),
            EntryOfPermutation(cellOrder[..], 2 * columns, placement);
        var fits, draw, center := CenterInCell(dimensions[glyph], cell, columns);
        if !fits {
          TooSmall(dimensions, glyph, cell, columns);
          return CellTooSmall;
        }
        if !draw.Drawn? { return RandomFailed; }
        ghost var before := centers[..];
        centers[glyph] := center;
        assert centers[..] == before[glyph := center];
        OneMoreInCell(dimensions, order, cells, before, columns, placement, centers[glyph]);
      }
      GridIsLaid(dimensions, order, cells, centers[..], columns);
      layout := RandomizeCenters(dimensions, centers);
    }

    /** A glyph fits a grid cell when its rectangle does. */
    predicate FitsCell(size: Size, cell: int, columns: int)
      requires columns > 0
    {
      var innerWidth, innerHeight := width - 2 * CANVAS_PADDING, height - 2 * CANVAS_PADDING;
      && CellEdge(innerWidth, columns, cell % columns + 1) - CellEdge(innerWidth, columns, cell % columns) >= 2 * size.x
      && CellEdge(innerHeight, 2, cell / columns + 1) - CellEdge(innerHeight, 2, cell / columns) >= 2 * size.y
    }

    ghost predicate SomeCellTooSmall(dimensions: seq<Size>) {
      |dimensions| > 0
      && var columns := (|dimensions| + 1) / 2;
         exists i, cell :: 0 <= i < |dimensions| && 0 <= cell < 2 * columns && !FitsCell(dimensions[i], cell, columns)
    }

    lemma TooSmall(dimensions: seq<Size>, glyph: int, cell: int, columns: int)
      requires 0 <= glyph < |dimensions| && columns == (|dimensions| + 1) / 2 && 0 <= cell < 2 * columns
      requires !FitsCell(dimensions[glyph], cell, columns)
      ensures SomeCellTooSmall(dimensions)
    {
      hide FitsCell;
    }

    function NothingToPlace(): (layout: Layout)
      ensures layout.Placed? && Laid(width, height, [], layout.centers)
    {
      Placed([])
    }

    /** The rectangle of a glyph lies in one grid cell. */
    predicate InCell(center: Point, size: Size, cell: int, columns: int)
      requires columns > 0
    {
      var column, row := cell % columns, cell / columns;
      var innerWidth, innerHeight := width - 2 * CANVAS_PADDING, height - 2 * CANVAS_PADDING;
      && CellEdge(innerWidth, columns, column) <= center.x - size.x
      && center.x + size.x <= CellEdge(innerWidth, columns, column + 1)
      && CellEdge(innerHeight, 2, row) <= center.y - size.y
      && center.y + size.y <= CellEdge(innerHeight, 2, row + 1)
    }

    ghost predicate InCells(dimensions: seq<Size>, order: seq<int>, cells: seq<int>, centers: seq<Point>,
                            columns: int, n: int)
    {
      && columns > 0 && 0 <= n <= |dimensions| <= 2 * columns
      && |centers| == |dimensions|
      && Permutes(order, |dimensions|) && Permutes(cells, 2 * columns)
      && forall p :: 0 <= p < n ==> InCell(centers[order[p]], dimensions[order[p]], cells[p], columns)
    }

    lemma GridStarts(dimensions: seq<Size>, order: seq<int>, cells: seq<int>, centers: seq<Point>, columns: int)
      requires |dimensions| > 0 && columns == (|dimensions| + 1) / 2 && |centers| == |dimensions|
      requires Permutes(order, |dimensions|) && Permutes(cells, 2 * columns)
      ensures InCells(dimensions, order, cells, centers, columns, 0)
    {
    }

    lemma OneMoreInCell(dimensions: seq<Size>, order: seq<int>, cells: seq<int>, centers: seq<Point>, columns: int,
                        n: int, center: Point)
      requires InCells(dimensions, order, cells, centers, columns, n) && n < |dimensions|
      requires InCell(center, dimensions[order[n]], cells[n], columns)
      ensures InCells(dimensions, order, cells, centers[order[n] := center], columns, n + 1)
    {
      hide InCell;
    }

    lemma CellIsInside(center: Point, size: Size, cell: int, columns: int)
      requires Valid() && columns > 0 && 0 <= cell < 2 * columns && InCell(center, size, cell, columns)
      ensures Inside(width, height, center, size)
      ensures Fits(size)
    {
      RowOfCell(cell, columns);
      var innerWidth, innerHeight := width - 2 * CANVAS_PADDING, height - 2 * CANVAS_PADDING;
      EdgesAscend(innerWidth, columns, 0, cell % columns);
      EdgesAscend(innerWidth, columns, cell % columns + 1, columns);
      EdgesAscend(innerHeight, 2, 0, cell / columns);
      EdgesAscend(innerHeight, 2, cell / columns + 1, 2);
      OuterEdges(innerWidth, columns);
      OuterEdges(innerHeight, 2);
    }

    lemma DifferentCellsAreDisjoint(a: Point, sizeA: Size, cellA: int, b: Point, sizeB: Size, cellB: int, columns: int)
      requires Valid() && columns > 0 && 0 <= cellA < 2 * columns && 0 <= cellB < 2 * columns && cellA != cellB
      requires InCell(a, sizeA, cellA, columns) && InCell(b, sizeB, cellB, columns)
      ensures Disjoint(a, sizeA, b, sizeB)
    {
      RowOfCell(cellA, columns);
      RowOfCell(cellB, columns);
      var innerWidth, innerHeight := width - 2 * CANVAS_PADDING, height - 2 * CANVAS_PADDING;
      if cellA % columns < cellB % columns {
        EdgesAscend(innerWidth, columns, cellA % columns + 1, cellB % columns);
      } else if cellB % columns < cellA % columns {
        EdgesAscend(innerWidth, columns, cellB % columns + 1, cellA % columns);
      } else if cellA / columns < cellB / columns {
        EdgesAscend(innerHeight, 2, cellA / columns + 1, cellB / columns);
      } else {
        EdgesAscend(innerHeight, 2, cellB / columns + 1, cellA / columns);
      }
    }

    lemma GridIsLaid(dimensions: seq<Size>, order: seq<int>, cells: seq<int>, centers: seq<Point>, columns: int)
      requires Valid() && InCells(dimensions, order, cells, centers, columns, |dimensions|)
      ensures Laid(width, height, dimensions, centers)
      ensures forall i :: 0 <= i < |dimensions| ==> Fits(dimensions[i])
    {
      hide InCell, Inside, Disjoint, Fits;
      forall i | 0 <= i < |dimensions| ensures Inside(width, height, centers[i], dimensions[i]) && Fits(dimensions[i]) {
        var p := PlaceOf(order, |dimensions|, i);
        CellIsInside(centers[i], dimensions[i], cells[p], columns);
      }
      forall i, j | 0 <= i < j < |dimensions| ensures Disjoint(centers[i], dimensions[i], centers[j], dimensions[j]) {
        var p := PlaceOf(order, |dimensions|, i);
        var q := PlaceOf(order, |dimensions|, j);
        DifferentCellsAreDisjoint(centers[i], dimensions[i], cells[p], centers[j], dimensions[j], cells[q], columns);
      }
    }

    /** Moves that keep every glyph clear of all others; none asks for an impossible draw. */
    method RandomizeCenters(dimensions: seq<Size>, centers: array<Point>) returns (layout: Layout)
      requires Laid(width, height, dimensions, centers[..])
      requires forall i :: 0 <= i < |dimensions| ==> Fits(dimensions[i])
      modifies centers, random
      ensures random.broken <==> old(random.broken) || layout.RandomFailed?
      ensures layout.Placed? ==> layout.centers == centers[..] && Laid(width, height, dimensions, layout.centers)
      ensures layout.Placed? || layout.RandomFailed?
      ensures old(random.drawn) <= random.drawn
    {
      hide Laid, Inside, Disjoint;
      LaidLength(width, height, dimensions, centers[..]);
      for move := 0 to |dimensions| * MOVES_PER_GLYPH
        invariant Laid(width, height, dimensions, centers[..]) && random.broken == old(random.broken)
        invariant old(random.drawn) <= random.drawn
      {
        var index := random.Int(|dimensions|);
        if !index.Drawn? { return RandomFailed; }
        var draw, candidate := RandomCenter(dimensions[index.value]);
        if !draw.Drawn? { return RandomFailed; }
        var overlaps := OverlapsOther(dimensions, centers[..], index.value, candidate);
        if !overlaps {
          MovedIsLaid(width, height, dimensions, centers[..], index.value, candidate);
          ghost var before := centers[..];
          centers[index.value] := candidate;
          assert centers[..] == before[index.value := candidate];
        }
      }
      layout := Placed(centers[..]);
    }

    method OverlapsOther(dimensions: seq<Size>, centers: seq<Point>, index: int, candidate: Point)
      returns (overlaps: bool)
      requires |centers| == |dimensions| && 0 <= index < |dimensions|
      ensures overlaps <==> !ClearOfOthers(dimensions, centers, index, candidate)
    {
      for other := 0 to |centers|
        invariant forall j :: 0 <= j < other && j != index ==>
                              Disjoint(candidate, dimensions[index], centers[j], dimensions[j])
      {
        if other == index { continue; }
        SeparatedMeansDisjoint(candidate, dimensions[index], centers[other], dimensions[other]);
        if !Separated(candidate, dimensions[index], centers[other], dimensions[other]) { return true; }
      }
      overlaps := false;
    }
  }

  ghost predicate ClearOfOthers(dimensions: seq<Size>, centers: seq<Point>, index: int, candidate: Point)
    requires |centers| == |dimensions| && 0 <= index < |dimensions|
  {
    forall j :: 0 <= j < |centers| && j != index ==> Disjoint(candidate, dimensions[index], centers[j], dimensions[j])
  }

  lemma MovedIsLaid(width: int, height: int, dimensions: seq<Size>, centers: seq<Point>, index: int, candidate: Point)
    requires Laid(width, height, dimensions, centers) && 0 <= index < |dimensions|
    requires Inside(width, height, candidate, dimensions[index]) && ClearOfOthers(dimensions, centers, index, candidate)
    ensures Laid(width, height, dimensions, centers[index := candidate])
  {
    hide Inside;
    var next := centers[index := candidate];
    forall i, j | 0 <= i < j < |next| ensures Disjoint(next[i], dimensions[i], next[j], dimensions[j]) {
      if i == index {
        assert Disjoint(candidate, dimensions[index], centers[j], dimensions[j]);
      } else if j == index {
        assert Disjoint(candidate, dimensions[index], centers[i], dimensions[i]);
      }
    }
  }

  lemma LaidLength(width: int, height: int, dimensions: seq<Size>, centers: seq<Point>)
    requires Laid(width, height, dimensions, centers)
    ensures |centers| == |dimensions|
  {
  }

  /** The k-th of the parts + 1 edges that divide the padded length. */
  function CellEdge(inner: int, parts: int, k: int): int
    requires parts > 0
  {
    CANVAS_PADDING + k * inner / parts
  }

  lemma EdgesAscend(inner: int, parts: int, j: int, k: int)
    requires inner >= 0 && parts > 0 && j <= k
    ensures CellEdge(inner, parts, j) <= CellEdge(inner, parts, k)
  {
    GrowsWith(j, k, inner);
    QuotientAscends(j * inner, k * inner, parts);
  }

  lemma OuterEdges(inner: int, parts: int)
    requires parts > 0
    ensures CellEdge(inner, parts, 0) == CANVAS_PADDING && CellEdge(inner, parts, parts) == CANVAS_PADDING + inner
  {
    assert parts * inner == inner * parts;
    QuotientIs(parts * inner, parts, inner);
  }

  lemma RowOfCell(cell: int, columns: int)
    requires columns > 0 && 0 <= cell < 2 * columns
    ensures 0 <= cell / columns < 2 && 0 <= cell % columns < columns
    ensures cell == cell / columns * columns + cell % columns
  {
  }

  function EntryOfPermutation(order: seq<int>, n: nat, k: nat): (entry: int)
    requires Permutes(order, n) && k < n
    ensures 0 <= entry < n && entry == order[k]
  {
    order[k]
  }

  lemma PlaceOf(order: seq<int>, n: nat, k: nat) returns (at: nat)
    requires Permutes(order, n) && k < n
    ensures at < n && order[at] == k
  {
    assert Lists(order, k);
    at :| at < n && order[at] == k;
  }

  lemma NoneYetPlaced(width: int, height: int, dimensions: seq<Size>, centers: seq<Point>)
    requires |centers| == |dimensions|
    ensures LaidSoFar(width, height, dimensions, centers, [])
  {
  }
}
