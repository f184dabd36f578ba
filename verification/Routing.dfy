/** Route choice: prefix matching with a path-segment boundary, and the three scans that must agree. */
module Routing {
  import opened Options

  datatype Limits = Limits(rate: real, burst: int)

  datatype Pool = Pool(maxIdleConns: int, maxIdlePerHost: int, idleTimeout: int)

  datatype Route = Route(prefix: string, backend: string, rateOverride: Option<Limits>, logLevel: string,
                         fallbackStatus: int, pool: Option<Pool>)

  /** What `url.Parse` makes of a backend. */
  datatype Url = Url(scheme: string, host: string)

  /** `MatchesPrefix`. */
  predicate Matches(path: string, prefix: string) {
    && prefix != ""
    && prefix <= path
    && (|path| == |prefix| || prefix[|prefix| - 1] == '/' || path[|prefix|] == '/')
  }

  /** A path below a prefix that is itself below another prefix is below the latter. */
  lemma MatchesTransitive(path: string, middle: string, prefix: string)
    requires Matches(path, middle) && Matches(middle, prefix)
    ensures Matches(path, prefix)
  {
    if |middle| > |prefix| {
      assert path[|prefix|] == middle[|prefix|];
    }
  }

  /** Matching is by path segments: below a prefix without a trailing slash lie the prefix itself and what goes on
      with a slash; below a prefix with one lies everything that extends it; nothing else matches. */
  lemma MatchesBySegments(prefix: string, rest: string)
    requires prefix != ""
    ensures prefix[|prefix| - 1] != '/' ==> (Matches(prefix + rest, prefix) <==> rest == "" || rest[0] == '/')
    ensures prefix[|prefix| - 1] == '/' ==> Matches(prefix + rest, prefix)
  {
    var path := prefix + rest;
    assert path[..|prefix|] == prefix;
    if rest != "" {
      assert path[|prefix|] == rest[0];
    }
  }

  lemma OnlyExtensionsMatch(path: string, prefix: string)
    requires Matches(path, prefix)
    ensures prefix != "" && exists rest :: path == prefix + rest
  {
    assert path == prefix + path[|prefix|..];
  }

  /** A sibling that merely begins with the same letters is not routed, by either kind of search; a child is. */
  lemma SiblingIsNotRouted(r: Route, path: string)
    requires r.prefix == "/api"
    ensures path == "/apiary" ==> FirstMatch([r], path) == None && ScanAll([r], path).prefix == UNKNOWN
    ensures path == "/api/users" ==> FirstMatch([r], path) == Some(r) && ScanAll([r], path).prefix == "/api"
  {
    assert [r][1..] == [] && [r][..0] == [];
    assert ScanAll([r], path) == Observe(ScanAll([], path), path, r);
    assert "/apiary" == "/api" + "ary" && "/api/users" == "/api" + "/users";
    MatchesBySegments("/api", "ary");
    MatchesBySegments("/api", "/users");
  }

  // ---------- Validated route lists ----------

  predicate ValidRoutes(routes: seq<Route>) {
    && (forall i | 0 <= i < |routes| :: routes[i].prefix != "" && routes[i].prefix[0] == '/')
    && (forall i, j | 0 <= i < j < |routes| :: routes[i].prefix != routes[j].prefix)
  }

  const LOG_LEVELS: set<string> := {"", "debug", "info", "warn", "error", "none"}

  /** The remaining conditions on one route; `parse` yields nothing for a malformed URL. */
  predicate Usable(parse: string -> Option<Url>, r: Route) {
    && r.backend != ""
    && parse(r.backend).Some?
    && parse(r.backend).value.scheme in {"http", "https"} && parse(r.backend).value.host != ""
    && r.logLevel in LOG_LEVELS
    && (r.fallbackStatus == 0 || 200 <= r.fallbackStatus <= 599)
    && (r.pool.Some? ==>
          r.pool.value.maxIdleConns >= 0 && r.pool.value.maxIdlePerHost >= 0 && r.pool.value.idleTimeout >= 0)
  }

  /** The route part of `validate`: the first offending route stops the loop. */
  method ValidateRoutes(parse: string -> Option<Url>, routes: seq<Route>) returns (ok: bool)
    ensures ok <==> routes != [] && ValidRoutes(routes) && forall i | 0 <= i < |routes| :: Usable(parse, routes[i])
  {
    if |routes| == 0 {
      return false;
    }
    var seen: set<string> := {};
    for i := 0 to |routes|
      invariant ValidRoutes(routes[..i])
      invariant forall j | 0 <= j < i :: Usable(parse, routes[j])
      invariant forall p :: p in seen <==> exists j :: 0 <= j < i && routes[j].prefix == p
    {
      var r := routes[i];
      if r.prefix == "" || r.prefix[0] != '/' || r.backend == "" {
        return false;
      }
      var u := parse(r.backend);
      if u.None? || (u.value.scheme != "http" && u.value.scheme != "https") || u.value.host == "" {
        return false;
      }
      if r.prefix in seen {
        return false;
      }
      seen := seen + {r.prefix};
      if r.logLevel !in LOG_LEVELS || (r.fallbackStatus != 0 && (r.fallbackStatus < 200 || r.fallbackStatus > 599)) {
        return false;
      }
      if r.pool.Some? {
        var cp := r.pool.value;
        if cp.maxIdleConns < 0 || cp.maxIdlePerHost < 0 || cp.idleTimeout < 0 {
          return false;
        }
      }
      assert routes[..i + 1] == routes[..i] + [routes[i]];
    }
    assert routes[..|routes|] == routes;
    return true;
  }

  // ---------- The longest match ----------

  /** `r` is a longest route of the list that matches the path. */
  ghost predicate IsLongest(routes: seq<Route>, path: string, r: Route) {
    && r in routes && Matches(path, r.prefix)
    && forall q | q in routes && Matches(path, q.prefix) :: |q.prefix| <= |r.prefix|
  }

  /** In a validated list there is at most one longest match. */
  lemma LongestIsUnique(routes: seq<Route>, path: string, r: Route, q: Route)
    requires ValidRoutes(routes) && IsLongest(routes, path, r) && IsLongest(routes, path, q)
    ensures r == q
  {
    assert r.prefix == path[..|r.prefix|] == q.prefix;
  }

  lemma SameLengthPrefixes(path: string, p: string, q: string)
    requires p <= path && q <= path
    ensures |p| == |q| ==> p == q
  {
    assert p == path[..|p|] && q == path[..|q|];
  }

  // ---------- Router: first match in the length-sorted list ----------

  /** What `sort.Slice` leaves behind; the order among equal lengths is unspecified. */
  ghost predicate SortedFrom(sorted: seq<Route>, routes: seq<Route>) {
    && multiset(sorted) == multiset(routes)
    && forall i, j | 0 <= i < j < |sorted| :: |sorted[i].prefix| >= |sorted[j].prefix|
  }

  function FirstMatch(routes: seq<Route>, path: string): Option<Route> {
    if routes == [] then None
    else if Matches(path, routes[0].prefix) then Some(routes[0])
    else FirstMatch(routes[1..], path)
  }

  /** `matchRoute`. */
  method MatchRoute(routes: seq<Route>, path: string) returns (r: Option<Route>)
    ensures r == FirstMatch(routes, path)
  {
    for i := 0 to |routes|
      invariant FirstMatch(routes, path) == FirstMatch(routes[i..], path)
    {
      if Matches(path, routes[i].prefix) {
        return Some(routes[i]);
      }
    }
    return None;
  }

  lemma {:induction false} FirstMatchIsLongest(sorted: seq<Route>, path: string)
    requires forall i, j | 0 <= i < j < |sorted| :: |sorted[i].prefix| >= |sorted[j].prefix|
    ensures match FirstMatch(sorted, path)
            case None => forall q | q in sorted :: !Matches(path, q.prefix)
            case Some(r) => IsLongest(sorted, path, r)
  {
    if sorted != [] {
      assert sorted == [sorted[0]] + sorted[1..];
      FirstMatchIsLongest(sorted[1..], path);
      if Matches(path, sorted[0].prefix) {
        forall q | q in sorted && Matches(path, q.prefix) ensures |q.prefix| <= |sorted[0].prefix| {
          var j :| 0 <= j < |sorted| && sorted[j] == q;
        }
      }
    }
  }

  // ---------- Limiter and log level: one pass keeping the best so far ----------

  const UNKNOWN: string := "unknown"
  const INFO: string := "info"

  /** Loop variables of the limiter's and the log-level scan together. */
  datatype Scan = Scan(bestLen: nat, prefix: string, rateOverride: Option<Limits>, level: string)

  function Observe(s: Scan, path: string, r: Route): Scan {
    if Matches(path, r.prefix) && |r.prefix| > s.bestLen
    then Scan(|r.prefix|, r.prefix, if r.rateOverride.Some? then r.rateOverride else s.rateOverride, r.logLevel)
    else s
  }

  function ScanAll(routes: seq<Route>, path: string): Scan {
    if routes == [] then Scan(0, UNKNOWN, None, INFO)
    else Observe(ScanAll(routes[..|routes| - 1], path), path, routes[|routes| - 1])
  }

  /** `limitsForPath`. */
  method LimitsForPath(routes: seq<Route>, global: Limits, path: string) returns (limits: Limits, prefix: string)
    ensures prefix == ScanAll(routes, path).prefix
    ensures limits == match ScanAll(routes, path).rateOverride case Some(l) => l case None => global
  {
    var bestOverride: Option<Limits> := None;
    var bestLen: nat := 0;
    prefix := UNKNOWN;
    for i := 0 to |routes|
      invariant Scan(bestLen, prefix, bestOverride, ScanAll(routes[..i], path).level) == ScanAll(routes[..i], path)
    {
      assert routes[..i + 1][..i] == routes[..i];
      if Matches(path, routes[i].prefix) && |routes[i].prefix| > bestLen {
        bestLen := |routes[i].prefix|;
        prefix := routes[i].prefix;
        if routes[i].rateOverride.Some? {
          bestOverride := routes[i].rateOverride;
        }
      }
    }
    assert routes[..|routes|] == routes;
    if bestOverride.Some? {
      return bestOverride.value, prefix;
    }
    return global, prefix;
  }

  /** `routeLogLevel`. */
  method RouteLogLevel(routes: seq<Route>, path: string) returns (level: string)
    ensures level == ScanAll(routes, path).level
  {
    var bestLen := 0;
    level := INFO;
    for i := 0 to |routes|
      invariant bestLen == ScanAll(routes[..i], path).bestLen && level == ScanAll(routes[..i], path).level
    {
      assert routes[..i + 1][..i] == routes[..i];
      if Matches(path, routes[i].prefix) && |routes[i].prefix| > bestLen {
        bestLen := |routes[i].prefix|;
        level := routes[i].logLevel;
      }
    }
    assert routes[..|routes|] == routes;
  }

  /** The scan ends on a longest match, or on its defaults when nothing matches. */
  lemma {:induction false} ScanPicksLongest(routes: seq<Route>, path: string)
    ensures var s := ScanAll(routes, path);
            if s.bestLen == 0
            then s == Scan(0, UNKNOWN, None, INFO) && forall q | q in routes :: !Matches(path, q.prefix)
            else exists r :: IsLongest(routes, path, r) && s.prefix == r.prefix && s.level == r.logLevel
                          && s.bestLen == |r.prefix|
  {
    if routes != [] {
      var init, last := routes[..|routes| - 1], routes[|routes| - 1];
      ScanPicksLongest(init, path);
      assert routes == init + [last];
      var s := ScanAll(init, path);
      if Matches(path, last.prefix) && |last.prefix| > s.bestLen {
        assert IsLongest(routes, path, last);
      } else if s.bestLen > 0 {
        var r :| IsLongest(init, path, r) && s.prefix == r.prefix && s.level == r.logLevel && s.bestLen == |r.prefix|;
        assert IsLongest(routes, path, r);
      }
    }
  }

  /** Router, limiter and logger agree on the route of every path, whatever the order of the configured
      list and however the sort broke ties. */
  lemma ThreeScansAgree(configured: seq<Route>, listed: seq<Route>, sorted: seq<Route>, path: string)
    requires ValidRoutes(configured) && multiset(listed) == multiset(configured)
    requires SortedFrom(sorted, configured)
    ensures match FirstMatch(sorted, path)
            case None => ScanAll(listed, path) == Scan(0, UNKNOWN, None, INFO)
            case Some(r) =>
              && IsLongest(configured, path, r)
              && ScanAll(listed, path).prefix == r.prefix
              && ScanAll(listed, path).level == r.logLevel
  {
    SameMembers(sorted, configured);
    SameMembers(listed, configured);
    FirstMatchIsLongest(sorted, path);
    ScanPicksLongest(listed, path);
    var s := ScanAll(listed, path);
    if s.bestLen > 0 {
      var q :| IsLongest(listed, path, q) && s.prefix == q.prefix && s.level == q.logLevel && s.bestLen == |q.prefix|;
      assert IsLongest(configured, path, q);
      if FirstMatch(sorted, path).Some? {
        LongestIsUnique(configured, path, q, FirstMatch(sorted, path).value);
      }
    }
  }

  lemma SameMembers(a: seq<Route>, b: seq<Route>)
    requires multiset(a) == multiset(b)
    ensures forall r :: r in a <==> r in b
  {
    forall r ensures r in a <==> r in b {
      assert r in a <==> r in multiset(a);
      assert r in b <==> r in multiset(b);
    }
  }

  // ---------- Scans over different lists ----------

  ghost function Prefixes(routes: seq<Route>): set<string> {
    set r | r in routes :: r.prefix
  }

  /** The router on its sorted list and the scans on theirs choose the same prefix for every path. */
  ghost predicate AgreeEverywhere(sorted: seq<Route>, listed: seq<Route>) {
    forall path :: ScanAll(listed, path).prefix == RouterPrefix(sorted, path)
  }

  function RouterPrefix(sorted: seq<Route>, path: string): string {
    match FirstMatch(sorted, path)
    case None => UNKNOWN
    case Some(r) => r.prefix
  }

  /** A path that is itself a configured prefix is routed to it, by either kind of search. */
  lemma RouterFindsPrefix(configured: seq<Route>, sorted: seq<Route>, p: string)
    requires ValidRoutes(configured) && SortedFrom(sorted, configured)
    ensures p in Prefixes(configured) <==> p != UNKNOWN && RouterPrefix(sorted, p) == p
  {
    SameMembers(sorted, configured);
    FirstMatchIsLongest(sorted, p);
    if p in Prefixes(configured) {
      var r :| r in configured && r.prefix == p;
      assert p[0] == '/' && r in sorted && Matches(p, r.prefix);
      SameLengthPrefixes(p, p, FirstMatch(sorted, p).value.prefix);
    }
  }

  lemma ScanFindsPrefix(listed: seq<Route>, p: string)
    requires ValidRoutes(listed)
    ensures p in Prefixes(listed) <==> p != UNKNOWN && ScanAll(listed, p).prefix == p
  {
    ScanPicksLongest(listed, p);
    if p in Prefixes(listed) {
      var r :| r in listed && r.prefix == p;
      assert p[0] == '/' && Matches(p, r.prefix);
      var q :| IsLongest(listed, p, q) && ScanAll(listed, p).prefix == q.prefix;
      SameLengthPrefixes(p, p, q.prefix);
    }
  }

  /** Longest matches in lists with the same prefixes have the same prefix. */
  lemma SamePrefixesAgree(configured: seq<Route>, sorted: seq<Route>, listed: seq<Route>, path: string)
    requires SortedFrom(sorted, configured) && Prefixes(configured) == Prefixes(listed)
    ensures ScanAll(listed, path).prefix == RouterPrefix(sorted, path)
  {
    SameMembers(sorted, configured);
    FirstMatchIsLongest(sorted, path);
    ScanPicksLongest(listed, path);
    var first := FirstMatch(sorted, path);
    assert forall r | r in sorted :: r.prefix in Prefixes(listed);
    assert forall q | q in listed :: q.prefix in Prefixes(configured);
    if first.Some? {
      var r :| r in listed && r.prefix == first.value.prefix;
      var q :| IsLongest(listed, path, q) && ScanAll(listed, path).prefix == q.prefix;
      var q' :| q' in configured && q'.prefix == q.prefix;
      assert Matches(path, r.prefix) && Matches(path, q'.prefix) && q' in sorted;
      SameLengthPrefixes(path, q.prefix, first.value.prefix);
    }
  }

  /** When the router and the scans work on different validated lists, they agree on every path exactly when
      the lists have the same prefixes. */
  lemma AgreeExactlyWhenSamePrefixes(configured: seq<Route>, sorted: seq<Route>, listed: seq<Route>)
    requires ValidRoutes(configured) && SortedFrom(sorted, configured) && ValidRoutes(listed)
    ensures AgreeEverywhere(sorted, listed) <==> Prefixes(configured) == Prefixes(listed)
  {
    if AgreeEverywhere(sorted, listed) {
      forall p ensures p in Prefixes(configured) <==> p in Prefixes(listed) {
        RouterFindsPrefix(configured, sorted, p);
        ScanFindsPrefix(listed, p);
      }
    }
    if Prefixes(configured) == Prefixes(listed) {
      forall path ensures ScanAll(listed, path).prefix == RouterPrefix(sorted, path) {
        SamePrefixesAgree(configured, sorted, listed, path);
      }
    }
  }

  /** For instance: a route added to the scans' list only is found by them and not by the router. */
  lemma AddedRouteDisagrees()
    ensures var a, b := Route("/a", "http://x", None, INFO, 0, None), Route("/b", "http://y", None, INFO, 0, None);
            RouterPrefix([a], "/b") == UNKNOWN && ScanAll([a, b], "/b").prefix == "/b"
  {
    var a, b := Route("/a", "http://x", None, INFO, 0, None), Route("/b", "http://y", None, INFO, 0, None);
    assert [a, b][..1] == [a] && [a][..0] == [];
    assert "/a"[1] != "/b"[1];
    assert !Matches("/b", "/a");
    assert [a][1..] == [];
    assert FirstMatch([a], "/b") == FirstMatch([a][1..], "/b");
    assert ScanAll([a], "/b") == Observe(ScanAll([], "/b"), "/b", a);
  }

  // ---------- The override is sticky ----------

  /** Route `i` matches and is longer than every matching route listed before it. */
  predicate BeatsAllBefore(routes: seq<Route>, path: string, i: nat)
    requires i < |routes|
  {
    Matches(path, routes[i].prefix) && |routes[i].prefix| > ScanAll(routes[..i], path).bestLen
  }

  /** No route from position `from` on is a record with an override. */
  ghost predicate NoOverrideFrom(routes: seq<Route>, path: string, from: nat) {
    forall j: nat | from <= j < |routes| && BeatsAllBefore(routes, path, j) :: routes[j].rateOverride.None?
  }

  /** Route `i` is the last record with an override. */
  ghost predicate Supplies(routes: seq<Route>, path: string, i: nat) {
    i < |routes| && BeatsAllBefore(routes, path, i) && routes[i].rateOverride.Some?
    && NoOverrideFrom(routes, path, i + 1)
  }

  lemma RecordsOfPrefix(routes: seq<Route>, path: string, n: nat, i: nat)
    requires i < n <= |routes|
    ensures BeatsAllBefore(routes[..n], path, i) == BeatsAllBefore(routes, path, i)
  {
    assert routes[..n][..i] == routes[..i];
  }

  lemma NoOverrideExtends(routes: seq<Route>, path: string, from: nat)
    requires routes != [] && NoOverrideFrom(routes[..|routes| - 1], path, from)
    requires BeatsAllBefore(routes, path, |routes| - 1) ==> routes[|routes| - 1].rateOverride.None?
    ensures NoOverrideFrom(routes, path, from)
  {
    forall j: nat | from <= j < |routes| && BeatsAllBefore(routes, path, j) ensures routes[j].rateOverride.None? {
      if j < |routes| - 1 {
        RecordsOfPrefix(routes, path, |routes| - 1, j);
      }
    }
  }

  /** The override that applies comes from the last route in list order that beat the best so far and
      has one; there is none exactly when no such route has one. */
  lemma {:induction false} OverrideComesFromLastRecord(routes: seq<Route>, path: string)
    ensures match ScanAll(routes, path).rateOverride
            case None => NoOverrideFrom(routes, path, 0)
            case Some(l) => exists i: nat :: Supplies(routes, path, i) && routes[i].rateOverride == Some(l)
  {
    if routes != [] {
      var n := |routes| - 1;
      var init := routes[..n];
      OverrideComesFromLastRecord(init, path);
      if BeatsAllBefore(routes, path, n) && routes[n].rateOverride.Some? {
        assert Supplies(routes, path, n);
      } else if ScanAll(init, path).rateOverride.Some? {
        var i: nat :| Supplies(init, path, i) && init[i].rateOverride == ScanAll(init, path).rateOverride;
        RecordsOfPrefix(routes, path, n, i);
        NoOverrideExtends(routes, path, i + 1);
        assert Supplies(routes, path, i);
      } else {
        NoOverrideExtends(routes, path, 0);
      }
    }
  }

  /** The limiter applies the chosen route's own setting exactly when that route has an override or no
      shorter match listed on the way to it has one. */
  lemma OwnLimitsExactlyWhen(routes: seq<Route>, path: string, r: Route)
    requires ValidRoutes(routes) && IsLongest(routes, path, r)
    ensures ScanAll(routes, path).rateOverride == r.rateOverride
       <==> r.rateOverride.Some?
            || NoOverrideFrom(routes, path, 0)
  {
    OverrideComesFromLastRecord(routes, path);
    var k: nat :| k < |routes| && routes[k] == r;
    LongestBeatsAll(routes, path, k);
    if r.rateOverride.Some? {
      var i: nat :| Supplies(routes, path, i) && routes[i].rateOverride == ScanAll(routes, path).rateOverride;
      if i > k {
        BestLenMonotone(routes, path, k, i);
      }
    }
  }

  lemma LongestBeatsAll(routes: seq<Route>, path: string, k: nat)
    requires ValidRoutes(routes) && k < |routes| && IsLongest(routes, path, routes[k])
    ensures BeatsAllBefore(routes, path, k)
    ensures ScanAll(routes[..k + 1], path).bestLen == |routes[k].prefix|
  {
    ScanPicksLongest(routes[..k], path);
    var s := ScanAll(routes[..k], path);
    if s.bestLen > 0 {
      var q :| IsLongest(routes[..k], path, q) && s.prefix == q.prefix && s.level == q.logLevel && s.bestLen == |q.prefix|;
      var j :| 0 <= j < k && routes[j] == q;
      SameLengthPrefixes(path, q.prefix, routes[k].prefix);
    }
    assert routes[..k + 1][..k] == routes[..k];
  }

  lemma {:induction false} BestLenMonotone(routes: seq<Route>, path: string, k: nat, i: nat)
    requires k < i < |routes|
    ensures ScanAll(routes[..k + 1], path).bestLen <= ScanAll(routes[..i], path).bestLen
  {
    if i > k + 1 {
      BestLenMonotone(routes, path, k, i - 1);
      assert routes[..i][..i - 1] == routes[..i - 1];
    }
  }

  // ---------- ... and when the order of the list matters ----------

  /** A permutation of a list without repetitions has none either. */
  lemma PermutationIsValid(routes: seq<Route>, listed: seq<Route>)
    requires ValidRoutes(routes) && multiset(listed) == multiset(routes)
    ensures ValidRoutes(listed)
  {
    SameMembers(listed, routes);
    forall i | 0 <= i < |listed| ensures listed[i].prefix != "" && listed[i].prefix[0] == '/' {
      assert listed[i] in routes;
    }
    forall i, j | 0 <= i < j < |listed| ensures listed[i].prefix != listed[j].prefix {
      if listed[i].prefix == listed[j].prefix {
        assert listed[i] in routes && listed[j] in routes;
        var a :| 0 <= a < |routes| && routes[a] == listed[i];
        var b :| 0 <= b < |routes| && routes[b] == listed[j];
        assert a == b;
        OccursTwice(listed, i, j);
        OccursOnce(routes, a);
      }
    }
  }

  lemma OccursTwice(s: seq<Route>, i: nat, j: nat)
    requires i < j < |s| && s[i] == s[j]
    ensures multiset(s)[s[i]] >= 2
  {
    assert s == s[..i] + [s[i]] + s[i + 1..j] + [s[j]] + s[j + 1..];
  }

  lemma OccursOnce(s: seq<Route>, i: nat)
    requires i < |s| && forall j | 0 <= j < |s| && j != i :: s[j] != s[i]
    ensures multiset(s)[s[i]] == 1
  {
    assert s == s[..i] + [s[i]] + s[i + 1..];
    assert s[i] !in s[..i] && s[i] !in s[i + 1..];
  }

  /** The same list with route `i` moved to the front. */
  function Fronted(routes: seq<Route>, i: nat): (listed: seq<Route>)
    requires i < |routes|
    ensures multiset(listed) == multiset(routes) && listed[0] == routes[i]
  {
    assert routes == routes[..i] + [routes[i]] + routes[i + 1..];
    [routes[i]] + routes[..i] + routes[i + 1..]
  }

  /** No matching route has an override. */
  predicate NoMatchOverrides(routes: seq<Route>, path: string) {
    forall q | q in routes && Matches(path, q.prefix) :: q.rateOverride.None?
  }

  /** The chosen route has an override, or no matching route has. */
  predicate OrderFree(routes: seq<Route>, path: string, r: Route) {
    r.rateOverride.Some? || NoMatchOverrides(routes, path)
  }

  lemma OrderFreeListsAgree(routes: seq<Route>, path: string, r: Route, listed: seq<Route>)
    requires ValidRoutes(routes) && IsLongest(routes, path, r) && OrderFree(routes, path, r)
    requires multiset(listed) == multiset(routes)
    ensures ScanAll(listed, path).rateOverride == r.rateOverride
  {
    PermutationIsValid(routes, listed);
    SameMembers(listed, routes);
    OwnLimitsExactlyWhen(listed, path, r);
    if r.rateOverride.None? {
      forall j: nat | j < |listed| && BeatsAllBefore(listed, path, j) ensures listed[j].rateOverride.None? {
        assert listed[j] in routes;
      }
    }
  }

  /** Listed first, a matching route with an override makes its mark on the limits. */
  lemma FrontedOverrideShows(routes: seq<Route>, path: string, i: nat)
    requires i < |routes| && Matches(path, routes[i].prefix) && routes[i].rateOverride.Some?
    ensures ScanAll(Fronted(routes, i), path).rateOverride.Some?
  {
    var listed := Fronted(routes, i);
    OverrideComesFromLastRecord(listed, path);
    assert listed[..0] == [];
    assert BeatsAllBefore(listed, path, 0);
  }

  /** Listed first, the longest match keeps every other route out. */
  lemma FrontedLongestShows(routes: seq<Route>, path: string, i: nat)
    requires ValidRoutes(routes) && i < |routes| && IsLongest(routes, path, routes[i])
    ensures ScanAll(Fronted(routes, i), path).rateOverride == routes[i].rateOverride
  {
    var listed, r := Fronted(routes, i), routes[i];
    PermutationIsValid(routes, listed);
    SameMembers(listed, routes);
    OwnLimitsExactlyWhen(listed, path, r);
    forall j: nat | j < |listed| && BeatsAllBefore(listed, path, j) ensures j == 0 {
      if j > 0 {
        LongestBeatsAll(listed, path, 0);
        BestLenMonotone(listed, path, 0, j);
      }
    }
  }

  /** Whatever the order of the list, the chosen route's own setting applies, if and only if it has an
      override or no matching route has one; otherwise the limits depend on the order. */
  lemma OwnLimitsInEveryOrder(routes: seq<Route>, path: string, r: Route)
    requires ValidRoutes(routes) && IsLongest(routes, path, r)
    ensures (forall listed | multiset(listed) == multiset(routes) :: ScanAll(listed, path).rateOverride == r.rateOverride)
       <==> OrderFree(routes, path, r)
    ensures !OrderFree(routes, path, r) ==>
      exists a, b :: multiset(a) == multiset(b) == multiset(routes)
                  && ScanAll(a, path).rateOverride != ScanAll(b, path).rateOverride
  {
    if OrderFree(routes, path, r) {
      forall listed | multiset(listed) == multiset(routes)
        ensures ScanAll(listed, path).rateOverride == r.rateOverride
      {
        OrderFreeListsAgree(routes, path, r, listed);
      }
    } else {
      var q :| q in routes && Matches(path, q.prefix) && q.rateOverride.Some?;
      var i: nat :| i < |routes| && routes[i] == q;
      var j: nat :| j < |routes| && routes[j] == r;
      FrontedOverrideShows(routes, path, i);
      FrontedLongestShows(routes, path, j);
      assert ScanAll(Fronted(routes, i), path).rateOverride != ScanAll(Fronted(routes, j), path).rateOverride;
    }
  }

  /** Two orders of the same two routes: the path gets the shorter route's override in one and the
      global limits in the other, although the same route is chosen. */
  lemma OverrideDependsOnOrder()
    ensures var short := Route("/a", "http://x", Some(Limits(5.0, 5)), INFO, 0, None);
            var long := Route("/a/b", "http://x", None, INFO, 0, None);
            && ScanAll([short, long], "/a/b").prefix == ScanAll([long, short], "/a/b").prefix == "/a/b"
            && ScanAll([short, long], "/a/b").rateOverride == Some(Limits(5.0, 5))
            && ScanAll([long, short], "/a/b").rateOverride == None
  {
    var short := Route("/a", "http://x", Some(Limits(5.0, 5)), INFO, 0, None);
    var long := Route("/a/b", "http://x", None, INFO, 0, None);
    assert [short, long][..1] == [short] && [long, short][..1] == [long];
    assert [short][..0] == [] && [long][..0] == [];
    assert "/a" <= "/a/b";
    assert ScanAll([short], "/a/b") == Observe(ScanAll([], "/a/b"), "/a/b", short);
    assert ScanAll([long], "/a/b") == Observe(ScanAll([], "/a/b"), "/a/b", long);
  }
}
