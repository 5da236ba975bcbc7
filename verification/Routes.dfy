/**
Selection of the registered route a request resolves to, and the grants that
admit it.
*/
module Routes {
  import opened Options
  import opened ResourceCatalog
  import opened Words
  import opened Ordering
  import Grants

  datatype Route = Route(method_: string, path: string)

  type Endpoint = Grants.Endpoint

  datatype Target = Target(method_: string, path: string, resource: string)

  function TrimSlash(path: string): string {
    if path != "" && path[|path| - 1] == '/' then path[..|path| - 1] else path
  }

  function Segments(path: string): (segments: seq<string>)
    ensures segments != [] && forall segment :: segment in segments ==> '/' !in segment
  {
    Split(TrimSlash(path), '/')
  }

  /** A parameter stands for exactly one segment. */
  predicate Parameter(segment: string) {
    || (segment != "" && segment[0] == '{' && segment[|segment| - 1] == '}')
    || (segment != "" && segment[0] == ':')
  }

  predicate Fills(actual: string) {
    actual != "" && actual != "." && actual != ".." && !ContainsAny(actual, "%\\")
  }

  predicate SegmentMatches(expected: string, actual: string) {
    if Parameter(expected) then Fills(actual) else expected == actual
  }

  ghost predicate Matches(template: string, path: string) {
    var expected, actual := Segments(template), Segments(path);
    |expected| == |actual| && forall i :: 0 <= i < |expected| ==> SegmentMatches(expected[i], actual[i])
  }

  /** One slash at the end of a template or a path makes no difference. */
  lemma TrailingSlash(template: string, path: string)
    requires path == "" || path[|path| - 1] != '/'
    ensures Matches(template, path + "/") <==> Matches(template, path)
    ensures Matches(path + "/", template) <==> Matches(path, template)
  {
    assert (path + "/")[..|path|] == path;
  }

  method MatchRouteTemplate(template: string, path: string) returns (ok: bool)
    ensures ok <==> Matches(template, path)
  {
    var expected, actual := Segments(template), Segments(path);
    if |expected| != |actual| { return false; }
    for index := 0 to |expected|
      invariant forall i :: 0 <= i < index ==> SegmentMatches(expected[i], actual[i])
    {
      var part := expected[index];
      if Parameter(part) {
        if actual[index] == "" || actual[index] == "." || actual[index] == ".." ||
           ContainsAny(actual[index], "%\\") { return false; }
        continue;
      }
      if part != actual[index] { return false; }
    }
    ok := true;
  }

  function CanonicalSegments(segments: seq<string>): (canonical: seq<string>)
    ensures |canonical| == |segments|
    ensures forall i :: 0 <= i < |segments| ==> canonical[i] == if Parameter(segments[i]) then "{}" else segments[i]
  {
    seq(|segments|, i requires 0 <= i < |segments| => if Parameter(segments[i]) then "{}" else segments[i])
  }

  function CanonicalRoute(path: string): string {
    JoinWith(CanonicalSegments(Segments(path)), '/')
  }

  /** "1" for a literal segment, "0" for a parameter. */
  function PriorityOf(segments: seq<string>): (priority: string)
    ensures |priority| == |segments|
    ensures forall i :: 0 <= i < |segments| ==> priority[i] == if segments[i] == "{}" then '0' else '1'
  {
    seq(|segments|, i requires 0 <= i < |segments| => if segments[i] == "{}" then '0' else '1')
  }

  function Priority(path: string): string {
    PriorityOf(Split(CanonicalRoute(path), '/'))
  }

  lemma CanonicalParts(path: string)
    ensures Split(CanonicalRoute(path), '/') == CanonicalSegments(Segments(path))
  {
    var parts := CanonicalSegments(Segments(path));
    forall part | part in parts ensures '/' !in part {
      var i :| 0 <= i < |parts| && parts[i] == part;
      assert Segments(path)[i] in Segments(path);
    }
    SplitOfJoin(parts, '/');
  }

  /** Two routes that match one path with equal priority have the same canonical text. */
  lemma EqualPriorityEqualRoute(a: string, b: string, path: string)
    requires Matches(a, path) && Matches(b, path) && Priority(a) == Priority(b)
    ensures CanonicalRoute(a) == CanonicalRoute(b)
  {
    CanonicalParts(a);
    CanonicalParts(b);
    var left, right := CanonicalSegments(Segments(a)), CanonicalSegments(Segments(b));
    assert |left| == |right| == |Segments(path)|;
    forall i | 0 <= i < |left| ensures left[i] == right[i] {
      assert Priority(a)[i] == Priority(b)[i];
      assert SegmentMatches(Segments(a)[i], Segments(path)[i]) && SegmentMatches(Segments(b)[i], Segments(path)[i]);
    }
    assert left == right;
  }

  ghost predicate Candidate(route: Route, target: Target) {
    route.method_ == target.method_ && route.path != "" && Matches(route.path, target.path)
  }

  predicate Above(a: string, b: string) {
    !StringBelow(a, b)
  }

  /** The chosen path is a candidate of the highest priority, or empty when there is none. */
  ghost predicate Best(routes: seq<Route>, target: Target, best: string) {
    && (best != "" ==> exists i :: 0 <= i < |routes| && routes[i].path == best && Candidate(routes[i], target))
    && (forall i :: 0 <= i < |routes| && Candidate(routes[i], target) ==>
                    best != "" && StringBelow(Priority(routes[i].path), Priority(best)))
  }

  method ResolveHttpRoute(routes: seq<Route>, target: Target) returns (best: string, registered: bool)
    ensures target.resource == "" ==> Best(routes, target, best)
    ensures target.resource != "" ==> best == ""
    ensures registered <==> best != ""
  {
    if target.resource != "" { return "", false; }
    var bestPriority := "";
    best := "";
    for n := 0 to |routes|
      invariant Best(routes[..n], target, best)
      invariant best != "" ==> bestPriority == Priority(best)
    {
      var route := routes[n];
      assert routes[..n + 1] == routes[..n] + [route];
      var matches := MatchRouteTemplate(route.path, target.path);
      if route.method_ != target.method_ || !matches {
        NotACandidate(routes[..n], target, best, route);
        continue;
      }
      var priority := Priority(route.path);
      NextBest(routes[..n], target, best, route);
      if best == "" || Above(priority, bestPriority) {
        best, bestPriority := route.path, priority;
      }
    }
    assert routes[..|routes|] == routes;
    registered := best != "";
  }

  lemma NotACandidate(routes: seq<Route>, target: Target, best: string, route: Route)
    requires Best(routes, target, best) && !Candidate(route, target)
    ensures Best(routes + [route], target, best)
  {
    hide Priority, Matches;
    var all := routes + [route];
    if best != "" {
      var i :| 0 <= i < |routes| && routes[i].path == best && Candidate(routes[i], target);
      assert all[i] == routes[i];
    }
    assert forall i :: 0 <= i < |routes| ==> all[i] == routes[i];
  }

  /** One more matching route: the empty path never displaces a candidate, a higher priority always does. */
  lemma NextBest(routes: seq<Route>, target: Target, best: string, route: Route)
    requires Best(routes, target, best)
    requires route.method_ == target.method_ && Matches(route.path, target.path)
    ensures var next := if best == "" || Above(Priority(route.path), Priority(best)) then route.path else best;
            Best(routes + [route], target, next)
  {
    hide Priority, Matches;
    if route.path == "" {
      if best != "" {
        var i :| 0 <= i < |routes| && routes[i].path == best && Candidate(routes[i], target);
        EmptyPathDisplacesNothing(best, target.path);
      }
      NotACandidate(routes, target, best, route);
    } else {
      var next := if best == "" || Above(Priority(route.path), Priority(best)) then route.path else best;
      NextBestCandidate(routes, target, best, route, next);
    }
  }

  lemma NextBestCandidate(routes: seq<Route>, target: Target, best: string, route: Route, next: string)
    requires Best(routes, target, best) && Candidate(route, target)
    requires next == if best == "" || Above(Priority(route.path), Priority(best)) then route.path else best
    ensures Best(routes + [route], target, next)
  {
    hide Priority, Matches;
    var all := routes + [route];
    assert all[|routes|] == route;
    if next == best && best != "" {
      var i :| 0 <= i < |routes| && routes[i].path == best && Candidate(routes[i], target);
      assert all[i] == routes[i];
    }
    forall i | 0 <= i < |all| && Candidate(all[i], target) ensures StringBelow(Priority(all[i].path), Priority(next)) {
      StringBelowTotal(Priority(route.path), Priority(route.path));
      if i < |routes| && next == route.path {
        StringBelowTotal(Priority(best), Priority(route.path));
        StringBelowTransitive(Priority(routes[i].path), Priority(best), Priority(route.path));
      }
    }
  }

  lemma EmptyPathDisplacesNothing(best: string, path: string)
    requires Matches("", path) && Matches(best, path)
    ensures StringBelow(Priority(""), Priority(best))
  {
    CanonicalParts("");
    CanonicalParts(best);
    assert Segments("") == [""];
    assert Segments(path) == [""] by {
      assert SegmentMatches(Segments("")[0], Segments(path)[0]);
    }
    assert SegmentMatches(Segments(best)[0], Segments(path)[0]);
    assert Segments(best) == [""];
    StringBelowTotal(Priority(best), Priority(best));
  }

  ghost predicate SameRoutes(a: seq<Route>, b: seq<Route>) {
    forall route :: route in a <==> route in b
  }

  /** The canonical route does not depend on the order of registration. */
  lemma OrderDoesNotMatter(a: seq<Route>, b: seq<Route>, target: Target, bestA: string, bestB: string)
    requires SameRoutes(a, b) && Best(a, target, bestA) && Best(b, target, bestB)
    ensures bestA == "" <==> bestB == ""
    ensures bestA != "" ==> CanonicalRoute(bestA) == CanonicalRoute(bestB)
  {
    hide Priority, Matches, CanonicalRoute;
    if bestA != "" {
      var i :| 0 <= i < |a| && a[i].path == bestA && Candidate(a[i], target);
      assert a[i] in b;
      var j :| 0 <= j < |b| && b[j] == a[i];
      assert Candidate(b[j], target);
    }
    if bestB != "" {
      var i :| 0 <= i < |b| && b[i].path == bestB && Candidate(b[i], target);
      assert b[i] in a;
      var j :| 0 <= j < |a| && a[j] == b[i];
      assert Candidate(a[j], target);
      StringBelowAntisymmetric(Priority(bestA), Priority(bestB));
      EqualPriorityEqualRoute(bestA, bestB, target.path);
    }
  }

  // Grants

  ghost predicate MatchEndpoint(endpoint: Endpoint, target: Target) {
    if target.resource != "" then endpoint.protocol == "grpc" && endpoint.path == target.resource
    else endpoint.protocol == "http" && endpoint.method_ == target.method_ && Matches(endpoint.path, target.path)
  }

  predicate GrantsRoute(endpoint: Endpoint, target: Target, resolved: string) {
    && endpoint.protocol == "http"
    && endpoint.method_ == target.method_
    && CanonicalRoute(endpoint.path) == CanonicalRoute(resolved)
  }

  ghost predicate Admits(target: Target, endpoint: Endpoint, best: string) {
    if best != "" then GrantsRoute(endpoint, target, best) else MatchEndpoint(endpoint, target)
  }

  /** The grant loop of a permission check. */
  method CheckEndpoints(routes: seq<Route>, endpoints: seq<Endpoint>, target: Target)
    returns (allowed: bool, best: string)
    ensures target.resource == "" ==> Best(routes, target, best)
    ensures target.resource != "" ==> best == ""
    ensures allowed <==> exists i :: 0 <= i < |endpoints| && Admits(target, endpoints[i], best)
  {
    var registered;
    best, registered := ResolveHttpRoute(routes, target);
    for n := 0 to |endpoints|
      invariant forall i :: 0 <= i < n ==> !Admits(target, endpoints[i], best)
    {
      var endpoint := endpoints[n];
      if registered {
        if endpoint.protocol == "http" && endpoint.method_ == target.method_
           && CanonicalRoute(endpoint.path) == CanonicalRoute(best) {
          assert Admits(target, endpoint, best);
          return true, best;
        }
        continue;
      }
      var matches := MatchesEndpoint(endpoint, target);
      if matches {
        assert Admits(target, endpoint, best);
        return true, best;
      }
    }
    allowed := false;
  }

  method MatchesEndpoint(endpoint: Endpoint, target: Target) returns (ok: bool)
    ensures ok <==> MatchEndpoint(endpoint, target)
  {
    if target.resource != "" {
      return endpoint.protocol == "grpc" && endpoint.path == target.resource;
    }
    var template := MatchRouteTemplate(endpoint.path, target.path);
    ok := endpoint.protocol == "http" && endpoint.method_ == target.method_ && template;
  }

  // The wildcard scope

  ghost predicate Declares(feature: Feature, target: Target) {
    exists endpoint :: Grants.Brings(feature, None, endpoint) && MatchEndpoint(endpoint, target)
  }

  /** A feature under another scope's keys declares the request. */
  ghost predicate DeclaredElsewhere(catalog: Catalog, scope: string, target: Target) {
    exists key :: key in catalog.buttons && !InScope(key, scope) && Declares(catalog.buttons[key], target)
  }

  method FeatureDeclares(feature: Feature, target: Target) returns (found: bool)
    ensures found <==> Declares(feature, target)
  {
    for n := 0 to |feature.http|
      invariant forall i :: 0 <= i < n ==>
                            !MatchEndpoint(Grants.Endpoint("http", feature.http[i].method_, feature.http[i].path),
                                           target)
    {
      var matches := MatchesEndpoint(Grants.Endpoint("http", feature.http[n].method_, feature.http[n].path), target);
      if matches {
        assert Grants.Brings(feature, None, Grants.Endpoint("http", feature.http[n].method_, feature.http[n].path));
        return true;
      }
    }
    for n := 0 to |feature.grpc|
      invariant forall i :: 0 <= i < n ==> !MatchEndpoint(Grants.Endpoint("grpc", "GRPC", feature.grpc[i]), target)
    {
      var matches := MatchesEndpoint(Grants.Endpoint("grpc", "GRPC", feature.grpc[n]), target);
      if matches {
        assert Grants.Brings(feature, None, Grants.Endpoint("grpc", "GRPC", feature.grpc[n]));
        return true;
      }
    }
    found := false;
  }

  method FindElsewhere(catalog: Catalog, scope: string, target: Target) returns (found: bool)
    ensures found <==> DeclaredElsewhere(catalog, scope, target)
  {
    hide Declares;
    var remaining := catalog.buttons.Keys;
    while remaining != {}
      invariant remaining <= catalog.buttons.Keys
      invariant forall key :: key in catalog.buttons && key !in remaining && !InScope(key, scope) ==>
                              !Declares(catalog.buttons[key], target)
    {
      var key :| key in remaining;
      remaining := remaining - {key};
      if !InScope(key, scope) {
        var declared := FeatureDeclares(catalog.buttons[key], target);
        if declared { return true; }
      }
    }
    found := false;
  }

  /** The whole check: an endpoint admits the request, or the wildcard does, which covers every request that no other
      scope's feature declares. */
  method CheckPermission(routes: seq<Route>, endpoints: seq<Endpoint>, wildcard: bool, scope: string,
                         catalog: Catalog, target: Target)
    returns (allowed: bool, best: string)
    ensures target.resource == "" ==> Best(routes, target, best)
    ensures target.resource != "" ==> best == ""
    ensures allowed <==> (exists i :: 0 <= i < |endpoints| && Admits(target, endpoints[i], best))
                         || (wildcard && !DeclaredElsewhere(catalog, scope, target))
  {
    hide DeclaredElsewhere, Best, Admits;
    allowed, best := CheckEndpoints(routes, endpoints, target);
    if !allowed && wildcard {
      var elsewhere := FindElsewhere(catalog, scope, target);
      allowed := !elsewhere;
    }
  }

  /** Routes with one canonical text match the same paths with the same priority. */
  lemma SameCanonicalSameMatches(a: string, b: string, path: string)
    requires CanonicalRoute(a) == CanonicalRoute(b)
    ensures Matches(a, path) <==> Matches(b, path)
    ensures Priority(a) == Priority(b)
  {
    CanonicalParts(a);
    CanonicalParts(b);
    var left, right := Segments(a), Segments(b);
    assert CanonicalSegments(left) == CanonicalSegments(right);
    assert |left| == |right|;
    forall i | 0 <= i < |left|
      ensures Parameter(left[i]) == Parameter(right[i]) && (!Parameter(left[i]) ==> left[i] == right[i]) {
      assert CanonicalSegments(left)[i] == CanonicalSegments(right)[i];
      assert Parameter("{}");
    }
  }

  /** An admitting grant matches the request, and no registered route is more static than the grant. */
  lemma GrantIsMostStatic(routes: seq<Route>, target: Target, endpoint: Endpoint, best: string, sibling: int)
    requires target.resource == "" && Best(routes, target, best) && best != ""
    requires Admits(target, endpoint, best)
    ensures Matches(endpoint.path, target.path)
    ensures 0 <= sibling < |routes| && Candidate(routes[sibling], target) ==>
              StringBelow(Priority(routes[sibling].path), Priority(endpoint.path))
  {
    hide Priority, Matches, CanonicalRoute;
    SameCanonicalSameMatches(endpoint.path, best, target.path);
  }

  /** So a grant with a parameter never admits a request that a literal sibling was registered for. */
  lemma ParameterNeverAdmitsSibling(routes: seq<Route>, target: Target, endpoint: Endpoint, best: string,
                                    sibling: int, at: nat)
    requires target.resource == "" && Best(routes, target, best) && best != ""
    requires 0 <= sibling < |routes| && Candidate(routes[sibling], target)
    requires at < |Segments(endpoint.path)| && at < |Segments(routes[sibling].path)|
    requires Parameter(Segments(endpoint.path)[at]) && !Parameter(Segments(routes[sibling].path)[at])
    requires forall i :: 0 <= i < at ==>
                         Parameter(Segments(endpoint.path)[i]) == Parameter(Segments(routes[sibling].path)[i])
    ensures !Admits(target, endpoint, best)
  {
    hide Matches, CanonicalRoute, Priority;
    if Admits(target, endpoint, best) {
      GrantIsMostStatic(routes, target, endpoint, best, sibling);
      SameLength(endpoint.path, target.path);
      SameLength(routes[sibling].path, target.path);
      LiteralAbove(endpoint.path, routes[sibling].path, at);
    }
  }

  lemma SameLength(template: string, path: string)
    requires Matches(template, path)
    ensures |Segments(template)| == |Segments(path)|
  {
  }

  lemma PriorityDigits(path: string)
    ensures |Priority(path)| == |Segments(path)|
    ensures forall i :: 0 <= i < |Priority(path)| ==>
                        Priority(path)[i] == if Parameter(Segments(path)[i]) then '0' else '1'
  {
    CanonicalParts(path);
    var parts := CanonicalSegments(Segments(path));
    assert Parameter("{}");
    assert forall i :: 0 <= i < |parts| ==> (parts[i] == "{}" <==> Parameter(Segments(path)[i]));
  }

  lemma LiteralAbove(parameterized: string, literal: string, at: nat)
    requires at < |Segments(parameterized)| == |Segments(literal)|
    requires Parameter(Segments(parameterized)[at]) && !Parameter(Segments(literal)[at])
    requires forall i :: 0 <= i < at ==> Parameter(Segments(parameterized)[i]) == Parameter(Segments(literal)[i])
    ensures !StringBelow(Priority(literal), Priority(parameterized))
  {
    PriorityDigits(literal);
    PriorityDigits(parameterized);
    hide Priority, Parameter;
    assert Priority(literal)[..at] == Priority(parameterized)[..at];
    HigherAt(Priority(parameterized), Priority(literal), at);
  }

  lemma {:induction false} HigherAt(low: string, high: string, at: nat)
    requires at < |low| && at < |high| && low[..at] == high[..at] && low[at] < high[at]
    ensures !StringBelow(high, low)
  {
    if at > 0 {
      assert low[0] == low[..at][0] == high[..at][0] == high[0];
      assert low[1..][..at - 1] == low[..at][1..] && high[1..][..at - 1] == high[..at][1..];
      HigherAt(low[1..], high[1..], at - 1);
    }
  }
}
