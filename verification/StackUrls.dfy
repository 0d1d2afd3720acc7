/** The URL routes of one compose stack: what the validator of
    backend/compose/processor.py accepts, and why each request then has one winner. */
module StackUrls {
  import opened Text
  import opened Paths
  import opened RouteTable
  import opened Routing

  /** One labelled route. `otherChecks` stands for the parts of the route serializer that
      consult settings or the database. */
  datatype UrlRoute = UrlRoute(domain: string, basePath: string, otherChecks: bool)

  datatype Verdict = Accepted(routes: seq<UrlRoute>) | Duplicate | Invalid | Shadowed

  /** `_normalize_base_path`: the path pattern of the proxy route. */
  function NormalizeBasePath(base: string): string {
    if base == "/" then "/*" else RStrip(base, '/') + "*"
  }

  /** The route serializer: a domain, and a base path whose normal form starts with `/` and holds
      neither `*` nor `..`. The routes keep the base path as it was written. */
  predicate FormAccepts(u: UrlRoute) {
    var path := NormPath(Strip(u.basePath));
    && u.domain != "" && u.basePath != ""
    && path[0] == '/' && '*' !in path && (forall i :: 0 <= i < |path| - 1 ==> !DotsAt(path, i))
    && u.otherChecks
  }

  /** It takes a route with a domain whose path starts with a slash, once white space is stripped, and
      has no component with a `*` or a `..` in it that is left when `.` and `..` are resolved. */
  lemma FormAcceptsIff(u: UrlRoute)
    ensures FormAccepts(u) <==>
              var s := Strip(u.basePath);
              && u.domain != "" && u.otherChecks && "/" <= s
              && forall i :: 0 <= i < |Components(s)| ==> !Unwanted(Components(s)[i])
  {
    var s := Strip(u.basePath);
    NormalFormStarts(s);
    if "/" <= s { NormalFormIsWanted(s); }
    assert Unwanted(NormPath(s)) <==>
           '*' in NormPath(s) || exists i :: 0 <= i < |NormPath(s)| - 1 && DotsAt(NormPath(s), i);
  }

  /** The serializer takes every one of these routes. */
  predicate AllAccepted(rs: seq<UrlRoute>) {
    rs == [] || (AllAccepted(rs[..|rs| - 1]) && FormAccepts(rs[|rs| - 1]))
  }

  predicate SameUrl(a: UrlRoute, b: UrlRoute) {
    a.domain == b.domain && a.basePath == b.basePath
  }

  predicate ShadowedBy(a: UrlRoute, b: UrlRoute) {
    a.domain != ToWildcard(a.domain) && b.domain == ToWildcard(a.domain) && a.basePath == b.basePath
  }

  ghost predicate NoDuplicates(rs: seq<UrlRoute>) {
    forall i, j :: 0 <= i < j < |rs| ==> !SameUrl(rs[i], rs[j])
  }

  ghost predicate NoneShadowed(rs: seq<UrlRoute>, all: seq<UrlRoute>) {
    forall a, b :: a in rs && b in all ==> !ShadowedBy(a, b)
  }

  ghost predicate NoShadows(rs: seq<UrlRoute>) {
    NoneShadowed(rs, rs)
  }

  function Flatten(services: seq<seq<UrlRoute>>): seq<UrlRoute> {
    if services == [] then [] else Flatten(services[..|services| - 1]) + services[|services| - 1]
  }

  /** `find_item_in_sequence` for the two lambdas of the validator. */
  function FindRoute(domain: string, basePath: string, rs: seq<UrlRoute>): (r: Option<UrlRoute>)
    ensures r.None? <==> forall u :: u in rs ==> !(u.domain == domain && u.basePath == basePath)
    ensures r.Some? ==> r.value in rs && r.value.domain == domain && r.value.basePath == basePath
  {
    if rs == [] then None
    else if rs[0].domain == domain && rs[0].basePath == basePath then Some(rs[0])
    else FindRoute(domain, basePath, rs[1..])
  }

  lemma NoDuplicatesSnoc(rs: seq<UrlRoute>, u: UrlRoute)
    ensures NoDuplicates(rs + [u]) <==> NoDuplicates(rs) && forall v :: v in rs ==> !SameUrl(v, u)
  {
    var t := rs + [u];
    if NoDuplicates(t) {
      forall i, j | 0 <= i < j < |rs| ensures !SameUrl(rs[i], rs[j]) { assert !SameUrl(t[i], t[j]); }
      forall v | v in rs ensures !SameUrl(v, u) {
        var i :| 0 <= i < |rs| && rs[i] == v;
        assert !SameUrl(t[i], t[|rs|]);
      }
    }
  }

  lemma {:induction false} FlattenPrefix(services: seq<seq<UrlRoute>>, n: nat)
    requires n <= |services|
    ensures Flatten(services[..n]) <= Flatten(services)
  {
    if n == |services| {
      assert services[..n] == services;
    } else {
      FlattenPrefix(services[..|services| - 1], n);
      assert services[..|services| - 1][..n] == services[..n];
    }
  }

  lemma {:induction false} FlattenHas(services: seq<seq<UrlRoute>>, s: nat, k: nat)
    requires s < |services| && k < |services[s]|
    ensures services[s][k] in Flatten(services)
  {
    if s < |services| - 1 { FlattenHas(services[..|services| - 1], s, k); }
  }

  lemma NoDuplicatesPrefix(rs: seq<UrlRoute>, t: seq<UrlRoute>)
    requires rs <= t && NoDuplicates(t)
    ensures NoDuplicates(rs)
  {
    forall i, j | 0 <= i < j < |rs| ensures !SameUrl(rs[i], rs[j]) {
      assert rs[i] == t[i] && rs[j] == t[j];
    }
  }

  /** A rejected duplicate really is one of the whole stack. */
  lemma DuplicateIsInStack(services: seq<seq<UrlRoute>>, s: nat, k: nat)
    requires s < |services| && k < |services[s]|
    requires !NoDuplicates(Flatten(services[..s]) + services[s][..k] + [services[s][k]])
    ensures !NoDuplicates(Flatten(services))
  {
    var t := Flatten(services[..s]) + services[s][..k] + [services[s][k]];
    assert services[..s + 1][..s] == services[..s];
    assert Flatten(services[..s + 1]) == Flatten(services[..s]) + services[s];
    assert services[s] == services[s][..k] + [services[s][k]] + services[s][k + 1..];
    assert Flatten(services[..s + 1]) == t + services[s][k + 1..];
    FlattenPrefix(services, s + 1);
    if NoDuplicates(Flatten(services)) { NoDuplicatesPrefix(t, Flatten(services)); }
  }

  lemma {:induction false} AcceptedAt(rs: seq<UrlRoute>, i: nat)
    requires AllAccepted(rs) && i < |rs|
    ensures FormAccepts(rs[i])
  {
    if i < |rs| - 1 { AcceptedAt(rs[..|rs| - 1], i); }
  }

  lemma {:induction false} AcceptedConcat(a: seq<UrlRoute>, b: seq<UrlRoute>)
    ensures AllAccepted(a + b) <==> AllAccepted(a) && AllAccepted(b)
    decreases |b|
  {
    if b == [] {
      assert a + b == a;
    } else {
      var n := |b| - 1;
      AcceptedConcat(a, b[..n]);
      assert (a + b)[..|a + b| - 1] == a + b[..n];
    }
  }

  lemma AcceptedPrefix(rs: seq<UrlRoute>, t: seq<UrlRoute>)
    requires rs <= t && AllAccepted(t)
    ensures AllAccepted(rs)
  {
    assert t == rs + t[|rs|..];
    AcceptedConcat(rs, t[|rs|..]);
  }

  lemma FlattenNext(services: seq<seq<UrlRoute>>, s: nat)
    requires s < |services|
    ensures Flatten(services[..s + 1]) == Flatten(services[..s]) + services[s]
  {
    assert services[..s + 1][..s] == services[..s];
  }

  lemma ServiceIsAccepted(services: seq<seq<UrlRoute>>, s: nat)
    requires s < |services| && AllAccepted(Flatten(services))
    ensures AllAccepted(services[s])
  {
    FlattenPrefix(services, s + 1);
    AcceptedPrefix(Flatten(services[..s + 1]), Flatten(services));
    FlattenNext(services, s);
    AcceptedConcat(Flatten(services[..s]), services[s]);
  }

  /** `form.is_valid` for the routes of one service. */
  method FormIsValid(routes: seq<UrlRoute>) returns (valid: bool)
    ensures valid <==> AllAccepted(routes)
  {
    for k := 0 to |routes|
      invariant AllAccepted(routes[..k])
    {
      assert routes[..k + 1][..k] == routes[..k];
      if !FormAccepts(routes[k]) {
        if AllAccepted(routes) { AcceptedAt(routes, k); }
        return false;
      }
    }
    assert routes[..|routes|] == routes;
    return true;
  }

  /** One service's turn of the first loop: its routes join the others unless a URL repeats. */
  method CollectService(services: seq<seq<UrlRoute>>, s: nat, before: seq<UrlRoute>)
    returns (found: bool, all: seq<UrlRoute>)
    requires s < |services| && before == Flatten(services[..s]) && NoDuplicates(before)
    ensures found ==> !NoDuplicates(Flatten(services))
    ensures !found ==> all == before + services[s] && NoDuplicates(all)
  {
    all := before;
    for k := 0 to |services[s]|
      invariant all == before + services[s][..k] && NoDuplicates(all)
    {
      var route := services[s][k];
      NoDuplicatesSnoc(all, route);
      if FindRoute(route.domain, route.basePath, all).Some? {
        DuplicateIsInStack(services, s, k);
        return true, all;
      }
      all := all + [route];
      assert services[s][..k + 1] == services[s][..k] + [route];
    }
    assert services[s][..|services[s]|] == services[s];
    found := false;
  }

  /** The first loop of the validator: gather every route, stop at a repeated URL or at a
      service whose routes the serializer refuses. */
  method CollectRoutes(services: seq<seq<UrlRoute>>) returns (v: Verdict)
    ensures v.Accepted? <==> AllAccepted(Flatten(services)) && NoDuplicates(Flatten(services))
    ensures v.Accepted? ==> v.routes == Flatten(services)
    ensures !v.Shadowed?
  {
    var allRoutes: seq<UrlRoute> := [];
    for s := 0 to |services|
      invariant allRoutes == Flatten(services[..s]) && AllAccepted(allRoutes) && NoDuplicates(allRoutes)
    {
      var before := allRoutes;
      var found;
      found, allRoutes := CollectService(services, s, before);
      if found { return Duplicate; }
      var valid := FormIsValid(services[s]);
      if !valid {
        if AllAccepted(Flatten(services)) { ServiceIsAccepted(services, s); }
        return Invalid;
      }
      AcceptedConcat(before, services[s]);
      assert services[..s + 1][..s] == services[..s];
    }
    assert services[..|services|] == services;
    v := Accepted(allRoutes);
  }

  /** One service's turn of the second loop. */
  method FindShadowIn(routes: seq<UrlRoute>, allRoutes: seq<UrlRoute>) returns (shadow: bool)
    ensures shadow <==> !NoneShadowed(routes, allRoutes)
  {
    for k := 0 to |routes|
      invariant NoneShadowed(routes[..k], allRoutes)
    {
      var route := routes[k];
      assert routes[..k + 1] == routes[..k] + [route];
      var wildcard := ToWildcard(route.domain);
      if route.domain == wildcard { continue; }
      var existing := FindRoute(wildcard, route.basePath, allRoutes);
      if existing.Some? {
        assert ShadowedBy(route, existing.value);
        return true;
      }
    }
    assert routes[..|routes|] == routes;
    return false;
  }

  lemma NoneShadowedConcat(a: seq<UrlRoute>, b: seq<UrlRoute>, all: seq<UrlRoute>)
    ensures NoneShadowed(a + b, all) <==> NoneShadowed(a, all) && NoneShadowed(b, all)
  {
    assert forall u :: u in a + b <==> u in a || u in b;
  }

  /** The second loop: is some route's wildcard routed at the same base path? */
  method FindShadow(services: seq<seq<UrlRoute>>, allRoutes: seq<UrlRoute>) returns (shadow: bool)
    requires allRoutes == Flatten(services)
    ensures shadow <==> !NoShadows(allRoutes)
  {
    for s := 0 to |services|
      invariant NoneShadowed(Flatten(services[..s]), allRoutes)
    {
      shadow := FindShadowIn(services[s], allRoutes);
      if shadow {
        ShadowIsInStack(services, s, allRoutes);
        return;
      }
      assert services[..s + 1][..s] == services[..s];
      NoneShadowedConcat(Flatten(services[..s]), services[s], allRoutes);
    }
    assert services[..|services|] == services;
    return false;
  }

  lemma ShadowIsInStack(services: seq<seq<UrlRoute>>, s: nat, all: seq<UrlRoute>)
    requires s < |services| && all == Flatten(services) && !NoneShadowed(services[s], all)
    ensures !NoShadows(all)
  {
    var a, b :| a in services[s] && b in all && ShadowedBy(a, b);
    var k :| 0 <= k < |services[s]| && services[s][k] == a;
    FlattenHas(services, s, k);
  }

  /** `validate_and_extract_service_urls`: a stack is accepted exactly when every route passes
      the serializer, no two routes have one domain and base path, and no route's wildcard is
      routed at the same base path. */
  method ValidateAndExtract(services: seq<seq<UrlRoute>>) returns (v: Verdict)
    ensures v.Accepted? <==>
            AllAccepted(Flatten(services)) && NoDuplicates(Flatten(services)) && NoShadows(Flatten(services))
    ensures v.Accepted? ==> v.routes == Flatten(services)
  {
    v := CollectRoutes(services);
    if v.Accepted? {
      var shadow := FindShadow(services, v.routes);
      if shadow { v := Shadowed; }
    }
  }

  // ---------------------------------------------------------------- unique winners

  /** The proxy route of a stack URL. */
  function ProxyRoute(u: UrlRoute, id: string, handle: string): Route {
    Route(id, On(NormalizeBasePath(u.basePath), u.domain), handle)
  }

  ghost predicate UrlMatches(u: UrlRoute, req: Request) {
    Matches(ProxyRoute(u, "", ""), req)
  }

  function UrlPrefix(u: UrlRoute): nat {
    PrefixLength(ProxyRoute(u, "", ""))
  }

  /** Route `i` matches, and no route that matches has a longer prefix. */
  ghost predicate Wins(rs: seq<UrlRoute>, i: int, req: Request) {
    && 0 <= i < |rs|
    && UrlMatches(rs[i], req)
    && forall j :: 0 <= j < |rs| && UrlMatches(rs[j], req) ==> UrlPrefix(rs[j]) <= UrlPrefix(rs[i])
  }

  ghost predicate UniqueWinners(rs: seq<UrlRoute>) {
    forall i, j, req :: Wins(rs, i, req) && Wins(rs, j, req) ==> i == j
  }

  /** A route's domain and base path as the proxy compares them. */
  function NormalRoute(u: UrlRoute): UrlRoute {
    UrlRoute(Lower(u.domain), Lower(NormalizeBasePath(u.basePath)), u.otherChecks)
  }

  function Normalized(rs: seq<UrlRoute>): (n: seq<UrlRoute>)
    ensures |n| == |rs| && forall i :: 0 <= i < |rs| ==> n[i] == NormalRoute(rs[i])
  {
    if rs == [] then [] else [NormalRoute(rs[0])] + Normalized(rs[1..])
  }

  /** The prefix a pattern matches, without its `*`. */
  function PrefixOf(u: UrlRoute): string {
    var p := NormalizeBasePath(u.basePath);
    p[..|p| - 1]
  }

  lemma PrefixWithoutStar(base: string)
    requires !EndsInStar(RStrip(base, '/'))
    ensures var p := NormalizeBasePath(base); p != "" && p[|p| - 1] == '*' && RStrip(p, '*') == p[..|p| - 1]
  {
    var p := NormalizeBasePath(base);
    RStripIs(p, '*', |p| - 1);
  }

  /** The pattern of the route is its prefix and one star. */
  ghost predicate Regular(u: UrlRoute) {
    && u.domain != ""
    && NormalizeBasePath(u.basePath) == PrefixOf(u) + "*"
    && RStrip(NormalizeBasePath(u.basePath), '*') == PrefixOf(u)
  }

  lemma AcceptedIsRegular(u: UrlRoute)
    requires FormAccepts(u)
    ensures Regular(u)
  {
    assert u.domain != "";
    NoStarAtTheEnd(u.basePath);
    PrefixWithoutStar(u.basePath);
  }

  lemma PrefixIs(rs: seq<UrlRoute>, i: nat)
    requires AllAccepted(rs) && i < |rs|
    ensures Regular(rs[i])
  {
    AcceptedAt(rs, i);
    AcceptedIsRegular(rs[i]);
  }

  lemma UrlMatchesIff(u: UrlRoute, req: Request)
    requires Regular(u)
    ensures UrlPrefix(u) == |PrefixOf(u)|
    ensures UrlMatches(u, req) <==>
            && Lower(PrefixOf(u)) <= Lower(req.path)
            && (Lower(u.domain) == Lower(req.host) || Lower(u.domain) == ToWildcard(Lower(req.host)))
  {
    HostMatchesIff(u.domain, req.host);
  }

  lemma PrefixesAgreeIff(a: UrlRoute, b: UrlRoute)
    requires Regular(a) && Regular(b)
    ensures NormalRoute(a).basePath == NormalRoute(b).basePath <==> Lower(PrefixOf(a)) == Lower(PrefixOf(b))
  {
    LowerConcat(PrefixOf(a), "*");
    LowerConcat(PrefixOf(b), "*");
    assert Lower(PrefixOf(a)) == (Lower(PrefixOf(a)) + Lower("*"))[..|PrefixOf(a)|];
    assert Lower(PrefixOf(b)) == (Lower(PrefixOf(b)) + Lower("*"))[..|PrefixOf(b)|];
  }

  /** Two routes the proxy takes for one: same base path, and one host, or the other's wildcard. */
  predicate Clash(a: UrlRoute, b: UrlRoute) {
    var m, n := NormalRoute(a), NormalRoute(b);
    m.basePath == n.basePath && (n.domain == m.domain || n.domain == ToWildcard(m.domain))
  }

  lemma ClashMakesTwoWinners(rs: seq<UrlRoute>, i: nat, j: nat)
    requires AllAccepted(rs) && i < |rs| && j < |rs| && Clash(rs[i], rs[j])
    ensures var req := Request(rs[i].domain, PrefixOf(rs[i])); Wins(rs, i, req) && Wins(rs, j, req)
  {
    var req := Request(rs[i].domain, PrefixOf(rs[i]));
    PrefixIs(rs, i);
    PrefixIs(rs, j);
    UrlMatchesIff(rs[i], req);
    UrlMatchesIff(rs[j], req);
    PrefixesAgreeIff(rs[i], rs[j]);
    forall m | 0 <= m < |rs| && UrlMatches(rs[m], req) ensures UrlPrefix(rs[m]) <= UrlPrefix(rs[i]) {
      PrefixIs(rs, m);
      UrlMatchesIff(rs[m], req);
    }
  }

  lemma TwoWinnersClash(rs: seq<UrlRoute>, i: int, j: int, req: Request)
    requires AllAccepted(rs) && Wins(rs, i, req) && Wins(rs, j, req)
    ensures Clash(rs[i], rs[j]) || Clash(rs[j], rs[i])
  {
    PrefixIs(rs, i);
    PrefixIs(rs, j);
    UrlMatchesIff(rs[i], req);
    UrlMatchesIff(rs[j], req);
    PrefixOfEqualLength(Lower(PrefixOf(rs[i])), Lower(PrefixOf(rs[j])), Lower(req.path));
    PrefixesAgreeIff(rs[i], rs[j]);
  }

  lemma PairIsApart(n: seq<UrlRoute>, i: nat, j: nat)
    requires i < |n| && j < |n| && i != j && NoDuplicates(n) && NoShadows(n)
    ensures !SameUrl(n[i], n[j]) && !ShadowedBy(n[i], n[j])
  {
    assert n[i] in n && n[j] in n;
    if i < j { assert !SameUrl(n[i], n[j]); } else { assert !SameUrl(n[j], n[i]); }
  }

  lemma ApartIsNoClash(a: UrlRoute, b: UrlRoute)
    requires !SameUrl(NormalRoute(a), NormalRoute(b)) && !ShadowedBy(NormalRoute(a), NormalRoute(b))
    ensures !Clash(a, b)
  {}

  lemma NormalizedAt(rs: seq<UrlRoute>, i: nat)
    requires i < |rs|
    ensures Normalized(rs)[i] == NormalRoute(rs[i])
  {}

  lemma NoClashSoUnique(rs: seq<UrlRoute>, i: int, j: int, req: Request)
    requires AllAccepted(rs)
    requires NoDuplicates(Normalized(rs)) && NoShadows(Normalized(rs))
    requires Wins(rs, i, req) && Wins(rs, j, req)
    ensures i == j
  {
    if i != j {
      PairIsApart(Normalized(rs), i, j);
      PairIsApart(Normalized(rs), j, i);
      NormalizedAt(rs, i);
      NormalizedAt(rs, j);
      ApartIsNoClash(rs[i], rs[j]);
      ApartIsNoClash(rs[j], rs[i]);
      TwoWinnersClash(rs, i, j, req);
    }
  }

  lemma UniqueSoNoClash(rs: seq<UrlRoute>, i: nat, j: nat)
    requires AllAccepted(rs)
    requires UniqueWinners(rs) && i < |rs| && j < |rs| && i != j
    ensures !SameUrl(Normalized(rs)[i], Normalized(rs)[j])
    ensures !ShadowedBy(Normalized(rs)[i], Normalized(rs)[j])
  {
    if Clash(rs[i], rs[j]) {
      ClashMakesTwoWinners(rs, i, j);
      TwoWinners(rs, i, j, Request(rs[i].domain, PrefixOf(rs[i])));
    }
  }

  lemma UniqueSoNoShadows(rs: seq<UrlRoute>)
    requires AllAccepted(rs) && UniqueWinners(rs)
    ensures NoShadows(Normalized(rs))
  {
    var n := Normalized(rs);
    forall a, b | a in n && b in n ensures !ShadowedBy(a, b) {
      var i :| 0 <= i < |n| && n[i] == a;
      var j :| 0 <= j < |n| && n[j] == b;
      if i != j { UniqueSoNoClash(rs, i, j); }
    }
  }

  lemma UniqueSoNoDuplicates(rs: seq<UrlRoute>)
    requires AllAccepted(rs) && UniqueWinners(rs)
    ensures NoDuplicates(Normalized(rs))
  {
    var n := Normalized(rs);
    forall i, j | 0 <= i < j < |n| ensures !SameUrl(n[i], n[j]) { UniqueSoNoClash(rs, i, j); }
  }

  /** Every request has one winner exactly when the validator's two checks pass on the domains
      and base paths as the proxy compares them: normalised, and letter case aside. */
  lemma UniqueWinnersIff(rs: seq<UrlRoute>)
    requires AllAccepted(rs)
    ensures UniqueWinners(rs) <==> NoDuplicates(Normalized(rs)) && NoShadows(Normalized(rs))
  {
    if NoDuplicates(Normalized(rs)) && NoShadows(Normalized(rs)) {
      forall i, j, req | Wins(rs, i, req) && Wins(rs, j, req) ensures i == j {
        NoClashSoUnique(rs, i, j, req);
      }
    }
    if UniqueWinners(rs) {
      UniqueSoNoShadows(rs);
      UniqueSoNoDuplicates(rs);
    }
  }

  /** A URL is in normal form when its base path is the root or does not end in a slash, and all
      of it is in lower case. */
  predicate NormalForm(u: UrlRoute) {
    && (u.basePath == "/" || (u.basePath != "" && u.basePath[|u.basePath| - 1] != '/'))
    && Lower(u.basePath) == u.basePath && Lower(u.domain) == u.domain
  }

  lemma NormalFormIs(u: UrlRoute)
    requires NormalForm(u)
    ensures NormalRoute(u) == UrlRoute(u.domain, u.basePath + "*", u.otherChecks)
  {
    assert NormalizeBasePath(u.basePath) == u.basePath + "*";
    LowerConcat(u.basePath, "*");
  }

  lemma NormalFormsStayApart(a: UrlRoute, b: UrlRoute)
    requires NormalForm(a) && NormalForm(b)
    ensures SameUrl(NormalRoute(a), NormalRoute(b)) ==> SameUrl(a, b)
    ensures ShadowedBy(NormalRoute(a), NormalRoute(b)) ==> ShadowedBy(a, b)
  {
    NormalFormIs(a);
    NormalFormIs(b);
    assert (a.basePath + "*")[..|a.basePath|] == a.basePath && (b.basePath + "*")[..|b.basePath|] == b.basePath;
  }

  /** What the validator promises: on URLs in normal form, an accepted stack has one winner for
      every request. */
  lemma AcceptedStackHasUniqueWinners(rs: seq<UrlRoute>)
    requires AllAccepted(rs) && forall u :: u in rs ==> NormalForm(u)
    requires NoDuplicates(rs) && NoShadows(rs)
    ensures UniqueWinners(rs)
  {
    var n := Normalized(rs);
    forall i, j | 0 <= i < j < |n| ensures !SameUrl(n[i], n[j]) {
      assert !SameUrl(rs[i], rs[j]) && rs[i] in rs && rs[j] in rs;
      NormalFormsStayApart(rs[i], rs[j]);
    }
    forall a, b | a in n && b in n ensures !ShadowedBy(a, b) {
      var i :| 0 <= i < |n| && n[i] == a;
      var j :| 0 <= j < |n| && n[j] == b;
      assert rs[i] in rs && rs[j] in rs && !ShadowedBy(rs[i], rs[j]);
      NormalFormsStayApart(rs[i], rs[j]);
    }
    UniqueWinnersIff(rs);
  }

  // ---------------------------------------------------------------- URLs not in normal form

  lemma TwoWinners(rs: seq<UrlRoute>, i: nat, j: nat, req: Request)
    requires i != j && Wins(rs, i, req) && Wins(rs, j, req)
    ensures !UniqueWinners(rs)
  {}

  lemma PairPasses(a: UrlRoute, b: UrlRoute)
    requires !SameUrl(a, b) && a.domain != "" && b.domain != "" && a.domain[0] != '*' && b.domain[0] != '*'
    ensures NoDuplicates([a, b]) && NoShadows([a, b])
  {
    assert forall u :: u in [a, b] ==> u == a || u == b;
    assert ToWildcard(a.domain)[0] == '*' && ToWildcard(b.domain)[0] == '*';
  }

  /** Two URLs of one stack that differ as they are written, on exact hosts, and are one to the
      proxy: the validator accepts them, and they compete for requests. */
  lemma AlikeIsAccepted(a: UrlRoute, b: UrlRoute)
    requires AllAccepted([a, b]) && !SameUrl(a, b) && SameUrl(NormalRoute(a), NormalRoute(b))
    requires a.domain != "" && b.domain != "" && a.domain[0] != '*' && b.domain[0] != '*'
    ensures NoDuplicates([a, b]) && NoShadows([a, b]) && !UniqueWinners([a, b])
  {
    PairPasses(a, b);
    var rs := [a, b];
    ClashMakesTwoWinners(rs, 0, 1);
    TwoWinners(rs, 0, 1, Request(a.domain, PrefixOf(a)));
  }

  lemma BothAccepted(a: UrlRoute, b: UrlRoute)
    requires FormAccepts(a) && FormAccepts(b)
    ensures AllAccepted([a, b])
  {
    assert [a, b][..1] == [a] && [a][..0] == [];
  }

  lemma SimpleFormAccepts(u: UrlRoute)
    requires u.domain != "" && u.otherChecks && (u.basePath == "/" || u.basePath == "/a" || u.basePath == "/a/")
    ensures FormAccepts(u)
  {
    NormalFormOfRoot();
    NormalFormOfA();
    NormalFormOfASlash();
  }

  lemma SlashIsStripped()
    ensures NormalizeBasePath("/a") == NormalizeBasePath("/a/")
  {
    RStripIs("/a", '/', 2);
    RStripIs("/a/", '/', 2);
  }

  /** Without normal form the promise fails: `/a` and `/a/` pass as two routes and then
      compete for every request under `/a`. */
  lemma TrailingSlashIsAccepted(a: UrlRoute, b: UrlRoute)
    requires a == UrlRoute("x.io", "/a", true) && b == UrlRoute("x.io", "/a/", true)
    ensures AllAccepted([a, b]) && NoDuplicates([a, b]) && NoShadows([a, b]) && !UniqueWinners([a, b])
  {
    SimpleFormAccepts(a);
    SimpleFormAccepts(b);
    BothAccepted(a, b);
    SlashIsStripped();
    AlikeIsAccepted(a, b);
  }

  /** And so do `X.io` and `x.io`, as the validator minds letter case and the proxy does not. */
  lemma OtherCaseIsAccepted(a: UrlRoute, b: UrlRoute)
    requires a == UrlRoute("X.io", "/", true) && b == UrlRoute("x.io", "/", true)
    ensures AllAccepted([a, b]) && NoDuplicates([a, b]) && NoShadows([a, b]) && !UniqueWinners([a, b])
  {
    SimpleFormAccepts(a);
    SimpleFormAccepts(b);
    BothAccepted(a, b);
    assert a.domain[0] != b.domain[0] && Lower(a.domain) == Lower(b.domain);
    AlikeIsAccepted(a, b);
  }

  // ---------------------------------------------------------------- in the proxy

  /** `ps[i]` is the proxy route of `rs[i]`. */
  ghost predicate RoutesOf(ps: seq<Route>, rs: seq<UrlRoute>) {
    |ps| == |rs| && forall i :: 0 <= i < |rs| ==> ps[i] == ProxyRoute(rs[i], ps[i].id, ps[i].handle)
  }

  lemma FirstMatchWins(t: seq<Route>, ps: seq<Route>, rs: seq<UrlRoute>, req: Request, k: nat)
    requires RoutesOf(ps, rs) && Sorted(t) && (forall r :: r in ps ==> r in t)
    requires k < |rs| && FirstMatch(t, req) == Some(ps[k])
    ensures Wins(rs, k, req)
  {
    SortedIsPathSorted(t);
    FirstMatchIs(t, req);
    forall j | 0 <= j < |rs| && UrlMatches(rs[j], req) ensures UrlPrefix(rs[j]) <= UrlPrefix(rs[k]) {
      assert ps[j] in ps;
      FirstMatchIsLongestPrefix(t, req, ps[k], ps[j]);
    }
  }

  /** In a sorted table that holds a stack's routes among others, a request for the stack goes to
      the one route of the stack that wins by prefix length, so the order of hosts never decides
      within the stack; a route of somebody else gets it only with as long a prefix. */
  lemma StackRequestsGoToTheWinner(t: seq<Route>, ps: seq<Route>, rs: seq<UrlRoute>, req: Request, i: int)
    requires RoutesOf(ps, rs) && Sorted(t) && (forall r :: r in ps ==> r in t)
    requires AllAccepted(rs)
    requires NoDuplicates(Normalized(rs)) && NoShadows(Normalized(rs))
    requires Wins(rs, i, req)
    ensures FirstMatch(t, req).Some?
    ensures var r := FirstMatch(t, req).value;
            r == ps[i] || (r !in ps && r.on.On? && UrlPrefix(rs[i]) <= PrefixLength(r))
  {
    FirstMatchIs(t, req);
    assert ps[i] in ps && Matches(ps[i], req);
    var r := FirstMatch(t, req).value;
    SortedIsPathSorted(t);
    FirstMatchIsLongestPrefix(t, req, r, ps[i]);
    if r in ps {
      var k :| 0 <= k < |ps| && ps[k] == r;
      FirstMatchWins(t, ps, rs, req, k);
      NoClashSoUnique(rs, k, i, req);
    }
  }
}
