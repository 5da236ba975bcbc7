/**
Calendar boundaries found by binary search over local dates, and the charts
built on them. The date of a second is any function; nothing about time zones
is built in.
*/
module Calendar {
  import opened Arithmetic

  const HOUR_MS := 3600000
  const DAY_MS := 86400000
  const HOUR := 3600

  /** The local date of a unix second, as the number of a day. */
  type Zone = int -> int

  /** Local dates never run backwards. */
  ghost predicate Forward(zone: Zone) {
    forall s, t :: s <= t ==> NotAfter(zone, s, t)
  }

  predicate NotAfter(zone: Zone, s: int, t: int) {
    zone(s) <= zone(t)
  }

  /** The first second from lo on whose date is at least the sought one. */
  ghost predicate FirstWithDate(zone: Zone, lo: int, sought: int, first: int) {
    && lo <= first
    && zone(first) >= sought
    && forall t :: lo <= t < first ==> zone(t) < sought
  }

  /** The second a binary search for a date ends at. */
  function Search(zone: Zone, lo: int, hi: int, sought: int): (found: int)
    requires lo <= hi
    ensures lo <= found <= hi
    decreases hi - lo
  {
    if lo == hi then lo
    else
      var mid := lo + (hi - lo) / 2;
      if zone(mid) < sought then Search(zone, mid + 1, hi, sought) else Search(zone, lo, mid, sought)
  }

  /** In front of the end there is an earlier date, for every zone. */
  lemma {:induction false} SearchBelow(zone: Zone, lo: int, hi: int, sought: int)
    requires lo <= hi
    ensures Search(zone, lo, hi, sought) > lo ==> zone(Search(zone, lo, hi, sought) - 1) < sought
    decreases hi - lo
  {
    if lo < hi {
      hide Search;
      var mid := Halved(zone, lo, hi, sought);
      if zone(mid) < sought {
        SearchBelow(zone, mid + 1, hi, sought);
      } else {
        SearchBelow(zone, lo, mid, sought);
      }
    }
  }

  /** At the end the date is reached unless the window is used up. */
  lemma {:induction false} SearchAbove(zone: Zone, lo: int, hi: int, sought: int)
    requires lo <= hi
    ensures Search(zone, lo, hi, sought) < hi ==> zone(Search(zone, lo, hi, sought)) >= sought
    decreases hi - lo
  {
    if lo < hi {
      hide Search;
      var mid := Halved(zone, lo, hi, sought);
      if zone(mid) < sought {
        SearchAbove(zone, mid + 1, hi, sought);
      } else {
        SearchAbove(zone, lo, mid, sought);
      }
    }
  }

  lemma Halved(zone: Zone, lo: int, hi: int, sought: int) returns (mid: int)
    requires lo < hi
    ensures lo <= mid < hi
    ensures Search(zone, lo, hi, sought) == if zone(mid) < sought then Search(zone, mid + 1, hi, sought)
        else Search(zone, lo, mid, sought)
  {
    mid := lo + (hi - lo) / 2;
  }

  /** When dates run forwards it is the first second of the date. */
  lemma SearchFinds(zone: Zone, lo: int, hi: int, sought: int)
    requires lo <= hi && Forward(zone) && zone(hi) >= sought
    ensures FirstWithDate(zone, lo, sought, Search(zone, lo, hi, sought))
  {
    SearchBelow(zone, lo, hi, sought);
    SearchAbove(zone, lo, hi, sought);
    var found := Search(zone, lo, hi, sought);
    forall t | lo <= t < found ensures zone(t) < sought {
      assert NotAfter(zone, t, found - 1);
    }
  }

  function DayEnd(zone: Zone, at: int): int {
    Search(zone, at, at + 48 * HOUR, zone(at) + 1)
  }

  /** For every zone the end lies behind the given second; it is the first later date if that lies in the window. */
  lemma DayEndsLater(zone: Zone, at: int)
    ensures at < DayEnd(zone, at) <= at + 48 * HOUR
    ensures Forward(zone) && zone(at + 48 * HOUR) > zone(at) ==> FirstWithDate(zone, at, zone(at) + 1, DayEnd(zone, at))
  {
    SearchAbove(zone, at, at + 48 * HOUR, zone(at) + 1);
    if Forward(zone) && zone(at + 48 * HOUR) > zone(at) {
      SearchFinds(zone, at, at + 48 * HOUR, zone(at) + 1);
    }
  }

  method NextCalendarDay(zone: Zone, at: int) returns (first: int)
    ensures first == DayEnd(zone, at)
  {
    var date := zone(at);
    var lo, hi := at, at + 48 * HOUR;
    while lo < hi
      invariant at <= lo <= hi <= at + 48 * HOUR
      invariant Search(zone, lo, hi, date + 1) == DayEnd(zone, at)
    {
      var mid := lo + (hi - lo) / 2;
      if zone(mid) <= date {
        lo := mid + 1;
      } else {
        hi := mid;
      }
    }
    first := lo;
  }

  function DateStart(zone: Zone, noon: int, date: int): int {
    Search(zone, noon - 36 * HOUR, noon, date)
  }

  /** The first second of a date, sought between 36 hours before its noon and that noon. */
  method CalendarStart(zone: Zone, noon: int, date: int) returns (first: int)
    ensures first == DateStart(zone, noon, date)
  {
    var lo, hi := noon - 36 * HOUR, noon;
    while lo < hi
      invariant noon - 36 * HOUR <= lo <= hi <= noon
      invariant Search(zone, lo, hi, date) == DateStart(zone, noon, date)
    {
      var mid := lo + (hi - lo) / 2;
      if zone(mid) < date {
        lo := mid + 1;
      } else {
        hi := mid;
      }
    }
    first := lo;
  }

  datatype Span = Span(from: int, to: int)

  predicate Covers(span: Span, at: int) {
    span.from <= at < span.to
  }

  /** Consecutive nonempty spans from the beginning to the end. */
  ghost predicate Partition(spans: seq<Span>, from: int, to: int) {
    && (forall i :: 0 <= i < |spans| ==> spans[i].from < spans[i].to)
    && (forall i :: 0 <= i < |spans| - 1 ==> spans[i].to == spans[i + 1].from)
    && (if spans == [] then from == to else spans[0].from == from && spans[|spans| - 1].to == to)
  }

  ghost predicate Consecutive(spans: seq<Span>) {
    forall i, j :: 0 <= i < j < |spans| ==> spans[i].to <= spans[j].from
  }

  lemma {:induction false} PartitionIsConsecutive(spans: seq<Span>, from: int, to: int)
    requires Partition(spans, from, to)
    ensures Consecutive(spans)
  {
    if |spans| > 1 {
      var before := spans[..|spans| - 1];
      PartitionIsConsecutive(before, from, spans[|spans| - 2].to);
      forall i, j | 0 <= i < j < |spans| ensures spans[i].to <= spans[j].from {
        if j < |spans| - 1 {
          assert before[i].to <= before[j].from;
        } else if i < |spans| - 2 {
          assert before[i].to <= before[|spans| - 2].from;
        }
      }
    }
  }

  /** Every instant lies in exactly one span. */
  lemma {:induction false} ExactlyOneSpan(spans: seq<Span>, from: int, to: int, at: int) returns (index: nat)
    requires Partition(spans, from, to) && from <= at < to
    ensures index < |spans| && Covers(spans[index], at)
    ensures forall i :: 0 <= i < |spans| && Covers(spans[i], at) ==> i == index
  {
    PartitionIsConsecutive(spans, from, to);
    index := |spans| - 1;
    while !Covers(spans[index], at)
      invariant index < |spans| && at < spans[index].to
      decreases index
    {
      index := index - 1;
    }
  }

  /** The second an instant in milliseconds belongs to. */
  function Second(ms: int): int {
    ms / 1000
  }

  /** No instant of the span has another date than its first. */
  ghost predicate OneDate(zone: Zone, span: Span) {
    forall at :: Covers(span, at) ==> zone(Second(at)) == zone(Second(span.from))
  }

  method HeatCells(zone: Zone, from: int, to: int) returns (cells: seq<Span>, daily: bool)
    requires from <= to
    ensures Partition(cells, from, to)
    ensures daily <==> to - from > 8 * DAY_MS
    ensures !daily ==> forall i :: 0 <= i < |cells| ==> cells[i].to - cells[i].from <= HOUR_MS
    ensures to - from > DAY_MS && Regular(zone) ==> forall i :: 0 <= i < |cells| ==> OneDate(zone, cells[i])
  {
    hide Regular, OneDate, DayEnd;
    daily := to - from > 8 * DAY_MS;
    var rolling := to - from <= DAY_MS;
    cells := [];
    var at := from;
    while at < to
      invariant from <= at <= to && Partition(cells, from, at)
      invariant !daily ==> forall i :: 0 <= i < |cells| ==> cells[i].to - cells[i].from <= HOUR_MS
      invariant !rolling && Regular(zone) ==> forall i :: 0 <= i < |cells| ==> OneDate(zone, cells[i])
    {
      var next := at + HOUR_MS;
      if !rolling {
        var first := NextCalendarDay(zone, Second(at));
        var boundary := first * 1000;
        if daily || next > boundary {
          next := boundary;
        }
        BeforeBoundary(zone, at);
      }
      var end := if next < to then next else to;
      cells := cells + [Span(at, end)];
      at := end;
    }
  }

  /** Dates never run backwards, and two days later it is always a later date. */
  ghost predicate Regular(zone: Zone) {
    Forward(zone) && forall s :: zone(s + 48 * HOUR) > zone(s)
  }

  /** Instants before the boundary still have the old date. */
  lemma BeforeBoundary(zone: Zone, at: int)
    ensures at < DayEnd(zone, Second(at)) * 1000
    ensures Regular(zone) ==> forall end :: end <= DayEnd(zone, Second(at)) * 1000 ==> OneDate(zone, Span(at, end))
  {
    var first := DayEnd(zone, Second(at));
    DayEndsLater(zone, Second(at));
    hide DayEnd;
    if Regular(zone) {
      forall end, t | end <= first * 1000 && Covers(Span(at, end), t) ensures zone(Second(t)) == zone(Second(at)) {
        assert NotAfter(zone, Second(at), Second(t)) && Second(t) < first;
      }
    }
  }

  // Events in buckets

  /** How many thresholds are not above the value, for ascending thresholds. */
  function WidthBucket(thresholds: seq<int>, value: int): (index: nat)
    ensures index <= |thresholds|
    ensures index > 0 ==> thresholds[index - 1] <= value
    ensures forall i :: index <= i < |thresholds| ==> thresholds[i] > value
  {
    if thresholds == [] then 0
    else if thresholds[|thresholds| - 1] <= value then |thresholds|
    else WidthBucket(thresholds[..|thresholds| - 1], value)
  }

  function Starts(spans: seq<Span>): (starts: seq<int>)
    ensures |starts| == |spans|
    ensures forall i :: 0 <= i < |spans| ==> starts[i] == spans[i].from
  {
    seq(|spans|, i requires 0 <= i < |spans| => spans[i].from)
  }

  /** The bucket number leads to the one span that holds the instant. */
  lemma BucketIsTheSpan(spans: seq<Span>, from: int, to: int, at: int)
    requires Partition(spans, from, to) && from <= at < to
    ensures var index := WidthBucket(Starts(spans), at);
            0 < index <= |spans| && Covers(spans[index - 1], at)
  {
    var home := ExactlyOneSpan(spans, from, to, at);
    PartitionIsConsecutive(spans, from, to);
    var index := WidthBucket(Starts(spans), at);
    assert Starts(spans)[home] <= at;
    assert forall j :: home < j < |spans| ==> Starts(spans)[j] >= spans[home].to;
  }

  /** One SQL group: the number of events whose key is the given one. */
  function CountKey(keys: seq<int>, key: int): nat {
    if keys == [] then 0 else (if keys[0] == key then 1 else 0) + CountKey(keys[1..], key)
  }

  function Sum(counts: seq<nat>): nat {
    if counts == [] then 0 else counts[0] + Sum(counts[1..])
  }

  function Counts(keys: seq<int>, wanted: seq<int>): (counts: seq<nat>)
    ensures |counts| == |wanted|
    ensures forall i :: 0 <= i < |wanted| ==> counts[i] == CountKey(keys, wanted[i])
  {
    seq(|wanted|, i requires 0 <= i < |wanted| => CountKey(keys, wanted[i]))
  }

  ghost predicate Distinct(wanted: seq<int>) {
    forall i, j :: 0 <= i < j < |wanted| ==> wanted[i] != wanted[j]
  }

  lemma {:induction false} CountsWithoutKeys(wanted: seq<int>)
    ensures Sum(Counts([], wanted)) == 0
  {
    if wanted != [] {
      assert Counts([], wanted)[1..] == Counts([], wanted[1..]);
      CountsWithoutKeys(wanted[1..]);
    }
  }

  lemma {:induction false} OneMoreKey(key: int, rest: seq<int>, wanted: seq<int>)
    requires Distinct(wanted)
    ensures Sum(Counts([key] + rest, wanted)) == Sum(Counts(rest, wanted)) + (if key in wanted then 1 else 0)
  {
    var keys := [key] + rest;
    assert keys[1..] == rest;
    if wanted != [] {
      assert Counts(keys, wanted)[1..] == Counts(keys, wanted[1..]);
      assert Counts(rest, wanted)[1..] == Counts(rest, wanted[1..]);
      OneMoreKey(key, rest, wanted[1..]);
      assert wanted == [wanted[0]] + wanted[1..];
      assert key in wanted <==> key == wanted[0] || key in wanted[1..];
    }
  }

  /** When every event has its group listed once, the groups add up to all events. */
  lemma {:induction false} GroupsAddUp(keys: seq<int>, wanted: seq<int>)
    requires Distinct(wanted) && forall i :: 0 <= i < |keys| ==> keys[i] in wanted
    ensures Sum(Counts(keys, wanted)) == |keys|
  {
    if keys == [] {
      CountsWithoutKeys(wanted);
    } else {
      assert keys == [keys[0]] + keys[1..];
      GroupsAddUp(keys[1..], wanted);
      OneMoreKey(keys[0], keys[1..], wanted);
    }
  }

  function HeatKeys(spans: seq<Span>, events: seq<int>): (keys: seq<int>)
    ensures |keys| == |events|
    ensures forall i :: 0 <= i < |events| ==> keys[i] == WidthBucket(Starts(spans), events[i])
  {
    seq(|events|, i requires 0 <= i < |events| => WidthBucket(Starts(spans), events[i]))
  }

  /** The bucket numbers of the cells. */
  function Numbers(n: nat): (numbers: seq<int>)
    ensures |numbers| == n && forall i :: 0 <= i < n ==> numbers[i] == i + 1
  {
    seq(n, i => i + 1)
  }

  /** Each cell is given the count of its own events, and the counts add up to all of them. */
  lemma HeatCountsAddUp(spans: seq<Span>, from: int, to: int, events: seq<int>)
    requires Partition(spans, from, to)
    requires forall i :: 0 <= i < |events| ==> from <= events[i] < to
    ensures Sum(Counts(HeatKeys(spans, events), Numbers(|spans|))) == |events|
    ensures forall i :: 0 <= i < |events| ==>
              var index := HeatKeys(spans, events)[i]; 0 < index <= |spans| && Covers(spans[index - 1], events[i])
  {
    forall i | 0 <= i < |events|
      ensures var index := HeatKeys(spans, events)[i]; 0 < index <= |spans| && Covers(spans[index - 1], events[i])
      ensures HeatKeys(spans, events)[i] in Numbers(|spans|)
    {
      BucketIsTheSpan(spans, from, to, events[i]);
      assert Numbers(|spans|)[WidthBucket(Starts(spans), events[i]) - 1] == WidthBucket(Starts(spans), events[i]);
    }
    GroupsAddUp(HeatKeys(spans, events), Numbers(|spans|));
  }

  // Trend buckets of fixed length

  /** Integer division as Go and PostgreSQL do it, towards zero. */
  function Truncated(a: int, b: int): int
    requires b > 0
  {
    if a >= 0 then a / b else -(-a / b)
  }

  function BucketOf(at: int, step: int): int
    requires step > 0
  {
    Truncated(at, step) * step
  }

  function TrendStep(from: int, to: int): int {
    if to - from <= DAY_MS then HOUR_MS else DAY_MS
  }

  ghost predicate Steps(starts: seq<int>, first: int, step: int) {
    forall i :: 0 <= i < |starts| ==> starts[i] == first + i * step
  }

  method TrendStarts(from: int, to: int) returns (starts: seq<int>)
    ensures Steps(starts, BucketOf(from, TrendStep(from, to)), TrendStep(from, to))
    ensures |starts| > 0 ==> starts[|starts| - 1] < to
    ensures BucketOf(from, TrendStep(from, to)) + |starts| * TrendStep(from, to) >= to
    ensures |starts| > 1 ==> starts[1] - starts[0] == if to - from <= 24 * 3600 * 1000 then 3600 * 1000
                                                      else 24 * 3600 * 1000
  {
    var step := TrendStep(from, to);
    var first := BucketOf(from, step);
    var at := first;
    starts := [];
    while at < to
      invariant at == first + |starts| * step
      invariant Steps(starts, first, step)
      invariant |starts| > 0 ==> starts[|starts| - 1] < to
    {
      starts := starts + [at];
      Distributes(|starts| - 1, step);
      at := at + step;
    }
  }

  lemma BucketBounds(at: int, step: int)
    requires step > 0 && at >= 0
    ensures BucketOf(at, step) <= at < BucketOf(at, step) + step
  {
  }

  lemma BucketAscends(a: int, b: int, step: int)
    requires step > 0 && a <= b
    ensures Truncated(a, step) <= Truncated(b, step)
  {
    if a >= 0 {
      QuotientAscends(a, b, step);
    } else if b < 0 {
      QuotientAscends(-b, -a, step);
    } else {
      QuotientAscends(0, -a, step);
      QuotientAscends(0, b, step);
    }
  }

  /** Every event of the range falls into a bucket the chart shows. */
  lemma EventHasItsBucket(starts: seq<int>, from: int, to: int, step: int, at: int) returns (index: nat)
    requires step > 0 && from <= at < to && 0 <= at
    requires Steps(starts, BucketOf(from, step), step)
    requires BucketOf(from, step) + |starts| * step >= to
    ensures index < |starts| && starts[index] == BucketOf(at, step)
  {
    BucketAscends(from, at, step);
    BucketBounds(at, step);
    index := Truncated(at, step) - Truncated(from, step);
    assert BucketOf(from, step) + index * step == BucketOf(at, step) by {
      Difference(Truncated(at, step), Truncated(from, step), step);
    }
    if index >= |starts| {
      GrowsWith(|starts|, index, step);
    }
  }

  lemma Difference(a: int, b: int, d: int)
    ensures (a - b) * d == a * d - b * d
  {
  }

  lemma StepsAreDistinct(starts: seq<int>, first: int, step: int)
    requires step > 0 && Steps(starts, first, step)
    ensures Distinct(starts)
  {
    forall i, j | 0 <= i < j < |starts| ensures starts[i] != starts[j] {
      Distributes(i, step);
      GrowsWith(i + 1, j, step);
    }
  }

  function BucketKeys(events: seq<int>, step: int): (keys: seq<int>)
    requires step > 0
    ensures |keys| == |events|
    ensures forall i :: 0 <= i < |events| ==> keys[i] == BucketOf(events[i], step)
  {
    seq(|events|, i requires 0 <= i < |events| => BucketOf(events[i], step))
  }

  /** The trend shows every event of the range exactly once. */
  lemma TrendCountsAddUp(starts: seq<int>, from: int, to: int, events: seq<int>)
    requires forall i :: 0 <= i < |events| ==> from <= events[i] < to && 0 <= events[i]
    requires var step := TrendStep(from, to);
             && Steps(starts, BucketOf(from, step), step)
             && BucketOf(from, step) + |starts| * step >= to
    ensures Sum(Counts(BucketKeys(events, TrendStep(from, to)), starts)) == |events|
  {
    var step := TrendStep(from, to);
    StepsAreDistinct(starts, BucketOf(from, step), step);
    forall i | 0 <= i < |events| ensures BucketKeys(events, step)[i] in starts {
      var index := EventHasItsBucket(starts, from, to, step, events[i]);
      assert starts[index] == BucketKeys(events, step)[i];
    }
    GroupsAddUp(BucketKeys(events, step), starts);
  }

  // Creation buckets of whole local dates

  /** Noon of a nominal date in the zone. */
  type Noons = int -> int

  ghost predicate NoonsFit(zone: Zone, noons: Noons) {
    forall date :: zone(noons(date)) >= date && zone(noons(date) - 36 * HOUR) < date
  }

  /** The second a date begins: dates before it are earlier, dates from it on are not. */
  ghost predicate Begins(zone: Zone, date: int, second: int) {
    forall t :: zone(t) < date <==> t < second
  }

  lemma StartBegins(zone: Zone, noons: Noons, date: int)
    requires Forward(zone) && NoonsFit(zone, noons)
    ensures Begins(zone, date, DateStart(zone, noons(date), date))
  {
    var lo, hi := noons(date) - 36 * HOUR, noons(date);
    SearchFinds(zone, lo, hi, date);
    var first := DateStart(zone, noons(date), date);
    forall t ensures zone(t) < date <==> t < first {
      if t >= first {
        assert NotAfter(zone, first, t);
      } else if t < lo {
        assert NotAfter(zone, t, lo);
      }
    }
  }

  method CreationBuckets(zone: Zone, noons: Noons, now: int, days: nat) returns (ok: bool, buckets: seq<Span>)
    ensures ok <==> days in {0, 14, 30}
    ensures ok ==> |buckets| == if days == 0 then 14 else days
    ensures ok ==> forall i :: 0 <= i < |buckets| - 1 ==> buckets[i].to == buckets[i + 1].from
    ensures ok && Forward(zone) && NoonsFit(zone, noons) ==>
              forall i :: 0 <= i < |buckets| ==> HoldsDate(zone, zone(now) - |buckets| + 1 + i, buckets[i])
  {
    buckets := [];
    var n := if days == 0 then 14 else days;
    if n != 14 && n != 30 { return false, buckets; }
    var date := zone(now) + 1 - n;
    for i := 0 to n
      invariant |buckets| == i && date == zone(now) + 1 - n + i
      invariant i > 0 ==> buckets[i - 1].to == DateStart(zone, noons(date), date) * 1000
      invariant forall k :: 0 <= k < i - 1 ==> buckets[k].to == buckets[k + 1].from
      invariant Forward(zone) && NoonsFit(zone, noons) ==>
                  forall k :: 0 <= k < i ==> HoldsDate(zone, zone(now) - n + 1 + k, buckets[k])
    {
      var next := date + 1;
      var from := CalendarStart(zone, noons(date), date);
      var to := CalendarStart(zone, noons(next), next);
      if Forward(zone) && NoonsFit(zone, noons) {
        StartBegins(zone, noons, date);
        StartBegins(zone, noons, next);
        DateIsHeld(zone, date, from, to);
      }
      buckets := buckets + [Span(from * 1000, to * 1000)];
      date := next;
    }
    ok := true;
  }

  /** The span holds exactly the instants of the date. */
  ghost predicate HoldsDate(zone: Zone, date: int, span: Span) {
    forall at :: Covers(span, at) <==> zone(Second(at)) == date
  }

  lemma DateIsHeld(zone: Zone, date: int, from: int, to: int)
    requires Begins(zone, date, from) && Begins(zone, date + 1, to)
    ensures HoldsDate(zone, date, Span(from * 1000, to * 1000))
  {
    forall at ensures Covers(Span(from * 1000, to * 1000), at) <==> zone(Second(at)) == date {
      assert zone(Second(at)) < date <==> Second(at) < from;
      assert zone(Second(at)) < date + 1 <==> Second(at) < to;
    }
  }
}
