/** Which route the proxy picks: it takes the first route of the list that matches, and the
    list's order makes that the one with the longest path prefix. */
module Routing {
  import opened Text
  import opened RouteTable

  datatype Request = Request(host: string, path: string)

  /** A trailing `*` makes a pattern a prefix pattern; without one it matches exactly. Letter case
      does not count. */
  predicate PathMatches(pattern: string, path: string) {
    if pattern == "" then true
    else if pattern[|pattern| - 1] == '*' then Lower(RStrip(pattern, '*')) <= Lower(path)
    else Lower(pattern) == Lower(path)
  }

  /** A host pattern matches itself, and a leading `*` stands for exactly one label; again letter
      case does not count. */
  ghost predicate HostMatches(pattern: string, host: string) {
    NameMatches(Lower(pattern), Lower(host))
  }

  ghost predicate NameMatches(pattern: string, host: string) {
    || pattern == host
    || (pattern != "" && pattern[0] == '*' && exists first: string :: OneLabelOf(first, pattern, host))
  }

  ghost predicate OneLabelOf(first: string, pattern: string, host: string) {
    && pattern != ""
    && '.' !in first
    && host == first + pattern[1..]
    && (|pattern| > 1 ==> pattern[1] == '.')
  }

  ghost predicate Matches(r: Route, req: Request) {
    match r.on
    case On(path, host) => PathMatches(path, req.path) && (host == "" || HostMatches(host, req.host))
    case _ => true
  }

  lemma PrefixIff(a: string, b: string)
    ensures a <= b <==> exists rest: string :: b == a + rest
  {
    if a <= b { assert b == a + b[|a|..]; }
  }

  lemma StarredStem(stem: string, path: string)
    requires stem == "" || stem[|stem| - 1] != '*'
    ensures PathMatches(stem + "*", path) <==> Lower(stem) <= Lower(path)
  {
    var pattern := stem + "*";
    RStripIs(pattern, '*', |stem|);
    assert pattern[..|stem|] == stem;
  }

  /** A pattern of a stem and one star matches the paths that go on from the stem; one that does not
      end in a star matches its own path alone; none matches all. Letter case does not count. */
  lemma PathMatchesIff(stem: string, path: string)
    requires stem == "" || stem[|stem| - 1] != '*'
    ensures PathMatches(stem + "*", path) <==> exists rest: string :: Lower(path) == Lower(stem) + rest
    ensures PathMatches(stem, path) <==> stem == "" || Lower(path) == Lower(stem)
  {
    StarredStem(stem, path);
    PrefixIff(Lower(stem), Lower(path));
  }

  /** A route without a host takes all hosts, and a route without a matcher every request. */
  lemma OpenRoutesMatch(r: Route, req: Request)
    ensures r.on.On? && r.on.host == "" ==> (Matches(r, req) <==> PathMatches(r.on.path, req.path))
    ensures !r.on.On? ==> Matches(r, req)
  {}

  ghost function FirstMatch(t: seq<Route>, req: Request): Option<Route> {
    if t == [] then None
    else if Matches(t[0], req) then Some(t[0])
    else FirstMatch(t[1..], req)
  }

  function PrefixLength(r: Route): nat
    requires r.on.On?
  {
    |RStrip(r.on.path, '*')|
  }

  lemma {:induction false} FirstMatchIs(t: seq<Route>, req: Request)
    ensures FirstMatch(t, req).None? <==> forall x :: x in t ==> !Matches(x, req)
    ensures FirstMatch(t, req).Some? ==>
              exists i :: 0 <= i < |t| && t[i] == FirstMatch(t, req).value && Matches(t[i], req)
                          && forall j :: 0 <= j < i ==> !Matches(t[j], req)
  {
    if t != [] && !Matches(t[0], req) {
      FirstMatchIs(t[1..], req);
      assert forall x :: x in t ==> x == t[0] || x in t[1..];
      if FirstMatch(t, req).Some? {
        var i :| 0 <= i < |t[1..]| && t[1..][i] == FirstMatch(t, req).value && Matches(t[1..][i], req)
              && forall j :: 0 <= j < i ==> !Matches(t[1..][j], req);
        assert t[i + 1] == t[1..][i];
        forall j | 0 <= j < i + 1 ensures !Matches(t[j], req) {
          if j > 0 { assert t[j] == t[1..][j - 1]; }
        }
      }
    }
  }

  /** With the catch-all in the table no request stays without an answer. */
  lemma CatchAllAnswers(t: seq<Route>, req: Request, x: Route)
    requires x in t && !x.on.On?
    ensures FirstMatch(t, req).Some?
  {
    FirstMatchIs(t, req);
    OpenRoutesMatch(x, req);
  }

  lemma FirstMatchAt(t: seq<Route>, req: Request, r: Route) returns (i: nat)
    requires FirstMatch(t, req) == Some(r)
    ensures i < |t| && t[i] == r && Matches(r, req) && forall j :: 0 <= j < i ==> !Matches(t[j], req)
  {
    FirstMatchIs(t, req);
    i :| 0 <= i < |t| && t[i] == r && Matches(t[i], req) && forall j :: 0 <= j < i ==> !Matches(t[j], req);
  }

  /** In a sorted table the route picked comes no later, by key, than any route that matches. */
  lemma FirstMatchIsLeast(t: seq<Route>, req: Request, r: Route, x: Route)
    requires Sorted(t) && FirstMatch(t, req) == Some(r)
    requires x in t && Matches(x, req)
    ensures r in t && Matches(r, req) && KeyLe(KeyOf(r), KeyOf(x))
  {
    var i := FirstMatchAt(t, req, r);
    var j :| 0 <= j < |t| && t[j] == x;
    if i == j { KeyTotalOrder(KeyOf(r), KeyOf(r), KeyOf(r)); }
  }

  /** The order the longest-prefix promise rests on: no route stands behind one whose path is
      less specific. Hosts and the custom order play no part in it. */
  ghost predicate PathSorted(t: seq<Route>) {
    forall i, j :: 0 <= i < j < |t| ==> !PathBefore(PathSpecificity(t[j].on), PathSpecificity(t[i].on))
  }

  lemma SortedIsPathSorted(t: seq<Route>)
    requires Sorted(t)
    ensures PathSorted(t)
  {
    forall i, j | 0 <= i < j < |t| ensures !PathBefore(PathSpecificity(t[j].on), PathSpecificity(t[i].on)) {
      assert KeyLe(KeyOf(t[i]), KeyOf(t[j]));
    }
  }

  /** First match is longest prefix, and a route without a matcher (the 404 catch-all) is
      picked only when no route with a matcher matches. */
  lemma FirstMatchIsLongestPrefix(t: seq<Route>, req: Request, r: Route, x: Route)
    requires PathSorted(t) && FirstMatch(t, req) == Some(r)
    requires x in t && Matches(x, req) && x.on.On?
    ensures r.on.On? && Matches(r, req) && PrefixLength(x) <= PrefixLength(r)
  {
    FirstMatchIs(t, req);
    var i :| 0 <= i < |t| && t[i] == r && Matches(r, req) && forall j :: 0 <= j < i ==> !Matches(t[j], req);
    var j :| 0 <= j < |t| && t[j] == x;
  }

  /** Of two routes that match with one prefix, an exact path and one that ends in a star, the exact
      one is picked. */
  lemma ExactPathWins(t: seq<Route>, req: Request, r: Route, x: Route)
    requires Sorted(t) && FirstMatch(t, req) == Some(r)
    requires x in t && Matches(x, req) && x.on.On? && x.on.path != "" && x.on.path[|x.on.path| - 1] != '*'
    requires r.on.On? && PrefixLength(r) == PrefixLength(x)
    ensures r.on.path != "" && r.on.path[|r.on.path| - 1] != '*'
  {
    FirstMatchIsLeast(t, req, r, x);
  }

  lemma PrefixOfEqualLength(a: string, b: string, s: string)
    requires a <= s && b <= s && |a| == |b|
    ensures a == b
  {
    assert a == s[..|a|] && b == s[..|b|];
  }

  /** What of a matcher counts when the proxy matches. */
  function Folded(m: Match): Match {
    match m
    case On(path, host) => On(Lower(path), Lower(host))
    case _ => m
  }

  lemma StarsFollow(p: string, i: nat)
    requires i < |p|
    ensures Lower(p)[i] == if i < |RStrip(p, '*')| then Lower(RStrip(p, '*'))[i] else '*'
  {}

  lemma TiedPathsAgree(p: string, q: string, path: string)
    requires PathMatches(p, path) && PathMatches(q, path)
    requires PathSpecificity(On(p, "")) == PathSpecificity(On(q, ""))
    ensures Lower(p) == Lower(q)
  {
    if p != "" && q != "" && p[|p| - 1] == '*' {
      PrefixOfEqualLength(Lower(RStrip(p, '*')), Lower(RStrip(q, '*')), Lower(path));
      forall i | 0 <= i < |p| ensures Lower(p)[i] == Lower(q)[i] {
        StarsFollow(p, i);
        StarsFollow(q, i);
      }
    }
  }

  /** Two routes that match one request and compare equal have the same matcher, letter case
      aside. */
  lemma TiedMatchersAgree(a: Route, b: Route, req: Request)
    requires Matches(a, req) && Matches(b, req) && KeyOf(a) == KeyOf(b)
    ensures Folded(a.on) == Folded(b.on)
  {
    if a.on.On? && b.on.On? { TiedPathsAgree(a.on.path, b.on.path, req.path); }
  }

  ghost predicate DistinctMatchers(t: seq<Route>) {
    forall x, y :: x in t && y in t && Folded(x.on) == Folded(y.on) ==> x == y
  }

  /** Arrival order may show in the table, but never in routing: two sorted tables over the
      same routes, no two of which have the same matcher, route every request alike. */
  lemma RoutingIgnoresArrivalOrder(a: seq<Route>, b: seq<Route>, req: Request)
    requires Sorted(a) && Sorted(b) && multiset(a) == multiset(b)
    requires DistinctMatchers(a)
    ensures FirstMatch(a, req) == FirstMatch(b, req)
  {
    FirstMatchIs(a, req);
    FirstMatchIs(b, req);
    assert forall x :: x in a <==> x in multiset(a);
    assert forall x :: x in b <==> x in multiset(b);
    if FirstMatch(a, req).Some? && FirstMatch(b, req).Some? {
      var x, y := FirstMatch(a, req).value, FirstMatch(b, req).value;
      FirstMatchIsLeast(a, req, x, y);
      FirstMatchIsLeast(b, req, y, x);
      KeyTotalOrder(KeyOf(x), KeyOf(y), KeyOf(y));
      TiedMatchersAgree(x, y, req);
    }
  }

  // ---------------------------------------------------------------- the front's place

  /** The id and matcher under which the front is registered on the proxy. */
  const FRONT := "front.zaneops.internal"

  function Front(host: string, handle: string): Route {
    Route(FRONT, On("/*", host), handle)
  }

  /** The key's branch for the frontend asks for another id, so it never applies to the front. */
  lemma FrontHasNoPlaceOfItsOwn(host: string, handle: string)
    ensures CustomOrder(Front(host, handle)) == 0
    ensures KeyOf(Front(host, handle)) == Key(Path(1, true, 2), host, 0)
  {
    assert FRONT[5] != "frontend.zaneops.internal"[5];
    assert FRONT[0] != "api.zaneops.internal"[0];
    RStripIs("/*", '*', 1);
  }

  /** A route that belongs behind the front at `host`: it has no path prefix at all, or it is
      at the root path too, on a later host, or on the same host under an id with a custom order
      (the API's, or the one nothing is registered under). */
  predicate BehindFront(x: Route, host: string) {
    x.on.On? &&
    (PrefixLength(x) == 0
     || (PathSpecificity(x.on) == Path(1, true, 2)
         && ((x.on.host != host && LexLe(host, x.on.host)) || (x.on.host == host && CustomOrder(x) > 0))))
  }

  lemma BehindFrontIs(x: Route, host: string, handle: string)
    requires x.on.On?
    ensures BehindFront(x, host)
            <==> KeyLe(KeyOf(Front(host, handle)), KeyOf(x)) && KeyOf(x) != KeyOf(Front(host, handle))
  {
    FrontHasNoPlaceOfItsOwn(host, handle);
    if x.on.path != "" && x.on.path[|x.on.path| - 1] != '*' { RStripIs(x.on.path, '*', |x.on.path|); }
  }

  /** In a sorted table all other routes with a matcher come before the front, or tie with it,
      exactly when none has an empty prefix and none at the root path is on a later host (nor on
      the same one under an id with a custom order). The routes without a matcher always come behind it. */
  lemma FrontComesLastIff(t: seq<Route>, p: nat, host: string, handle: string)
    requires Sorted(t) && p < |t| && t[p] == Front(host, handle)
    ensures (forall j :: 0 <= j < |t| && t[j].on.On? ==> j <= p || KeyOf(t[j]) == KeyOf(t[p]))
            <==> forall j :: 0 <= j < |t| ==> !BehindFront(t[j], host)
    ensures forall j :: 0 <= j < |t| && !t[j].on.On? ==> p < j
  {
    FrontHasNoPlaceOfItsOwn(host, handle);
    forall j | 0 <= j < |t|
      ensures t[j].on.On? ==> (BehindFront(t[j], host) <==> KeyOf(t[j]) != KeyOf(t[p]) && j > p)
      ensures !t[j].on.On? ==> p < j
    {
      if t[j].on.On? { BehindFrontIs(t[j], host, handle); }
      if j < p { KeyTotalOrder(KeyOf(t[j]), KeyOf(t[p]), KeyOf(t[p])); }
    }
  }

  /** A build registry is routed by host alone, so in every sorted table it stands behind the
      front. */
  lemma RegistryComesBehindFront(t: seq<Route>, p: nat, j: nat, host: string, domain: string)
    requires Sorted(t) && p < |t| && t[p].id == FRONT && t[p].on == On("/*", host)
    requires j < |t| && t[j].on == On("", domain)
    ensures p < j
  {
    assert t[p] == Front(host, t[p].handle);
    FrontHasNoPlaceOfItsOwn(host, t[p].handle);
    if j <= p { KeyTotalOrder(KeyOf(t[j]), KeyOf(t[p]), KeyOf(t[p])); }
  }

  /** So with one registry the front is not the last route before the catch-all. */
  lemma FrontIsNotAlwaysLast(host: string, alias: string, domain: string, handle: string)
    ensures var registry, catchAll := Route(alias, On("", domain), handle), Route("zane-catchall-404", Missing, handle);
            var t := [Front(host, handle), registry, catchAll];
            Sorted(t) && BehindFront(t[1], host)
  {
    FrontHasNoPlaceOfItsOwn(host, handle);
  }

  /** The API's place is behind any other route with its matcher, the front aside. */
  lemma ApiStandsBehind(t: seq<Route>, i: nat, j: nat)
    requires Sorted(t) && i < |t| && j < |t| && t[i].id == "api.zaneops.internal" && t[i].on.On?
    requires t[j].on == t[i].on && t[j].id != "api.zaneops.internal" && t[j].id != "frontend.zaneops.internal"
    ensures j < i
  {
    assert t[i].id[0] != "frontend.zaneops.internal"[0];
    if i <= j { KeyTotalOrder(KeyOf(t[i]), KeyOf(t[j]), KeyOf(t[j])); }
  }

  // ---------------------------------------------------------------- wildcard hosts

  /** The text of a domain from its first dot on. */
  function FromFirstDot(d: string): (t: string)
    ensures |t| <= |d| && d[|d| - |t|..] == t && '.' !in d[..|d| - |t|]
    ensures t != "" ==> t[0] == '.'
  {
    if d == "" || d[0] == '.' then d else
      var t := FromFirstDot(d[1..]);
      assert d[..|d| - |t|] == [d[0]] + d[1..][..|d[1..]| - |t|];
      t
  }

  /** `domain_to_wildcard`: the first label replaced by `*`. */
  function ToWildcard(domain: string): string {
    "*" + FromFirstDot(domain)
  }

  lemma {:induction false} FromFirstDotOf(first: string, rest: string)
    requires '.' !in first && (rest == "" || rest[0] == '.')
    ensures FromFirstDot(first + rest) == rest
  {
    if first == "" {
      assert first + rest == rest;
    } else {
      assert (first + rest)[1..] == first[1..] + rest;
      FromFirstDotOf(first[1..], rest);
    }
  }

  lemma WildcardOfMatches(host: string)
    ensures NameMatches(ToWildcard(host), host)
  {
    var t := FromFirstDot(host);
    var first := host[..|host| - |t|];
    assert ToWildcard(host)[1..] == t && host == first + t;
    assert OneLabelOf(first, ToWildcard(host), host);
  }

  lemma {:induction false} OneLabelIsWildcard(first: string, pattern: string, host: string)
    requires OneLabelOf(first, pattern, host) && pattern[0] == '*'
    ensures pattern == ToWildcard(host)
  {
    var rest := pattern[1..];
    FromFirstDotOf(first, rest);
    assert pattern == "*" + rest && FromFirstDot(host) == rest;
  }

  /** A host is matched by its own name and by its `domain_to_wildcard`, and by nothing else,
      letter case aside. */
  lemma HostMatchesIff(pattern: string, host: string)
    ensures HostMatches(pattern, host) <==> Lower(pattern) == Lower(host) || Lower(pattern) == ToWildcard(Lower(host))
  {
    var p, h := Lower(pattern), Lower(host);
    WildcardOfMatches(h);
    if p != h && NameMatches(p, h) {
      var first: string :| OneLabelOf(first, p, h);
      OneLabelIsWildcard(first, p, h);
    }
  }
}
