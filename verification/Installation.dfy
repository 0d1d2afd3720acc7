/** The table the installation leaves on the proxy (backend/backend/bootstrap.py), and exactly
    when the runs that start from it route by longest prefix. */
module Installation {
  import opened Text
  import opened RouteTable
  import opened Routing
  import opened ProxyServer
  import opened ProxyRuns

  const API := "api.zaneops.internal"
  const CATCH_ALL := "zane-catchall-404"

  function Api(host: string): Route {
    Route(API, On("/api/*", host), "")
  }

  /** Each route is put in front of the ones before: the API first, then the front. */
  function Installed(host: string): seq<Route> {
    [Front(host, ""), Api(host), Route(CATCH_ALL, Missing, "")]
  }

  /** Every request goes to a matching route with the longest prefix. */
  ghost predicate RoutesByPrefix(t: seq<Route>) {
    forall req :: FirstMatch(t, req).Some? ==> LongestOf(t, req, FirstMatch(t, req).value)
  }

  /** No route with a path matches the request with a longer prefix than `r` does. */
  ghost predicate LongestOf(t: seq<Route>, req: Request, r: Route) {
    forall x :: x in t && Matches(x, req) && x.on.On? ==> r.on.On? && PrefixLength(x) <= PrefixLength(r)
  }

  ghost predicate HasPut(log: seq<Entry>) {
    exists i :: 0 <= i < |log| && log[i].write.Put?
  }

  ghost predicate Dropped(log: seq<Entry>, id: string) {
    exists i :: 0 <= i < |log| && log[i].write == Drop(id)
  }

  // ---------------------------------------------------------------- runs without an upsert

  /** The routes of `t` whose ids are not among these. */
  function Minus(t: seq<Route>, ids: set<string>): seq<Route> {
    if t == [] then [] else Plus(Minus(t[..|t| - 1], ids), t[|t| - 1], Kept(t[|t| - 1].id, ids))
  }

  predicate Kept(id: string, ids: set<string>) { id !in ids }

  ghost predicate NoneAmong(t: seq<Route>, ids: set<string>) {
    forall i :: 0 <= i < |t| ==> t[i].id !in ids
  }

  function DroppedIds(log: seq<Entry>): set<string> {
    if log == [] then {}
    else
      var w := log[|log| - 1].write;
      DroppedIds(log[..|log| - 1]) + if w.Drop? then {w.id} else {}
  }

  lemma {:induction false} DroppedIdsAre(log: seq<Entry>, id: string)
    ensures id in DroppedIds(log) <==> Dropped(log, id)
  {
    if log != [] {
      var n := |log| - 1;
      DroppedIdsAre(log[..n], id);
      if i :| 0 <= i < n && log[..n][i].write == Drop(id) { assert log[i].write == Drop(id); }
      if i :| 0 <= i < |log| && log[i].write == Drop(id) { assert i < n ==> log[..n][i].write == Drop(id); }
    }
  }

  lemma {:induction false} WithoutMinus(t: seq<Route>, ids: set<string>, id: string)
    ensures Without(Minus(t, ids), id) == Minus(t, ids + {id})
  {
    if t != [] {
      var n := |t| - 1;
      WithoutMinus(t[..n], ids, id);
      if t[n].id !in ids { WithoutSnoc(Minus(t[..n], ids), t[n], id); }
    }
  }

  lemma {:induction false} MinusNothing(t: seq<Route>)
    ensures Minus(t, {}) == t
  {
    if t != [] {
      MinusNothing(t[..|t| - 1]);
      assert t == t[..|t| - 1] + [t[|t| - 1]];
    }
  }

  lemma {:induction false} MinusMembers(t: seq<Route>, ids: set<string>, r: Route)
    requires r in Minus(t, ids)
    ensures r in t
  {
    var n := |t| - 1;
    if r in Minus(t[..n], ids) { MinusMembers(t[..n], ids, r); }
  }

  lemma InPlaceOfAbsent(t: seq<Route>, r: Route)
    requires forall x :: x in t ==> x.id != r.id
    ensures InPlace(t, r) == t
  {
    forall i | 0 <= i < |t| ensures InPlace(t, r)[i] == t[i] { assert t[i] in t; }
  }

  lemma WriteTakesAway(registries: set<string>, t0: seq<Route>, ids: set<string>, w: Write)
    requires WriteOk(registries, w) && !w.Put? && NoneAmong(t0, registries)
    ensures Applied(Minus(t0, ids), w) == Minus(t0, ids + if w.Drop? then {w.id} else {})
  {
    var t := Minus(t0, ids);
    if w.Drop? {
      WithoutMinus(t0, ids, w.id);
    } else {
      forall x | x in t ensures x.id != w.route.id { MinusMembers(t0, ids, x); }
      InPlaceOfAbsent(t, w.route);
      assert ids + {} == ids;
    }
  }

  ghost predicate OnlyRemovals(registries: set<string>, log: seq<Entry>) {
    forall i :: 0 <= i < |log| ==> WriteOk(registries, log[i].write) && !log[i].write.Put?
  }

  lemma RemovalsBefore(registries: set<string>, log: seq<Entry>)
    requires OnlyRemovals(registries, log) && log != []
    ensures OnlyRemovals(registries, log[..|log| - 1])
    ensures WriteOk(registries, log[|log| - 1].write) && !log[|log| - 1].write.Put?
  {}

  /** Without an upsert a run only takes routes away from a table without registries. */
  lemma {:induction false} FoldIsMinus(registries: set<string>, t0: seq<Route>, log: seq<Entry>)
    requires OnlyRemovals(registries, log) && NoneAmong(t0, registries)
    ensures Fold(t0, log) == Minus(t0, DroppedIds(log))
  {
    if log == [] {
      MinusNothing(t0);
    } else {
      RemovalsBefore(registries, log);
      FoldIsMinus(registries, t0, log[..|log| - 1]);
      WriteTakesAway(registries, t0, DroppedIds(log[..|log| - 1]), log[|log| - 1].write);
    }
  }

  // ---------------------------------------------------------------- what is left of it

  lemma MinusOfThree(a: Route, b: Route, c: Route, ids: set<string>)
    ensures Minus([a, b, c], ids) == Plus(Plus(Plus([], a, Kept(a.id, ids)), b, Kept(b.id, ids)), c, Kept(c.id, ids))
  {
    assert [a, b, c][..2] == [a, b] && [a, b][..1] == [a] && [a][..0] == [];
    assert Minus([a], ids) == Plus(Minus([], ids), a, Kept(a.id, ids));
    assert Minus([a, b], ids) == Plus(Minus([a], ids), b, Kept(b.id, ids));
  }

  lemma PathsOfInstalled(host: string)
    ensures PathSpecificity(Front(host, "").on) == Path(1, true, 2) && PathSpecificity(Api(host).on) == Path(5, true, 6)
    ensures RStrip("/*", '*') == "/" && RStrip("/api/*", '*') == "/api/"
  {
    RStripIs("/*", '*', 1);
    RStripIs("/api/*", '*', 5);
    assert "/*"[..1] == "/" && "/api/*"[..5] == "/api/";
  }

  lemma LowerPrefix(a: string, b: string)
    requires a <= b
    ensures Lower(a) <= Lower(b)
  {
    forall i | 0 <= i < |a| ensures Lower(a)[i] == Lower(b)[i] {
      assert Lower(a)[i] == LowerChar(a[i]) == LowerChar(b[i]);
    }
  }

  lemma UnderPrefix(r: Route, path: string)
    requires r.on.On? && r.on.path != "" && r.on.path[|r.on.path| - 1] == '*'
    requires RStrip(r.on.path, '*') <= path
    ensures Matches(r, Request(r.on.host, path))
  {
    LowerPrefix(RStrip(r.on.path, '*'), path);
  }

  /** Both routes take a request under the API's path, and the API has the longer one. */
  lemma BothMatchApi(host: string, path: string)
    requires "/api/" <= path
    ensures Matches(Front(host, ""), Request(host, path)) && Matches(Api(host), Request(host, path))
    ensures PrefixLength(Front(host, "")) < PrefixLength(Api(host))
  {
    PathsOfInstalled(host);
    UnderPrefix(Front(host, ""), path);
    UnderPrefix(Api(host), path);
  }

  /** With the front before a longer path that matches too, the front gets the request. */
  lemma ShorterTakesFirst(t: seq<Route>, req: Request)
    requires |t| >= 2 && Matches(t[0], req) && Matches(t[1], req)
    requires t[0].on.On? && t[1].on.On? && PrefixLength(t[0]) < PrefixLength(t[1])
    ensures FirstMatch(t, req) == Some(t[0]) && !RoutesByPrefix(t)
  {
    assert t[1] in t && !LongestOf(t, req, t[0]);
  }

  lemma PathSortedRoutes(t: seq<Route>)
    requires PathSorted(t)
    ensures RoutesByPrefix(t)
  {
    forall req | FirstMatch(t, req).Some? ensures LongestOf(t, req, FirstMatch(t, req).value) {
      FirstIsLongest(t, req, FirstMatch(t, req).value);
    }
  }

  lemma FirstIsLongest(t: seq<Route>, req: Request, r: Route)
    requires PathSorted(t) && FirstMatch(t, req) == Some(r)
    ensures LongestOf(t, req, r)
  {
    forall x | x in t && Matches(x, req) && x.on.On? ensures r.on.On? && PrefixLength(x) <= PrefixLength(r) {
      FirstMatchIsLongestPrefix(t, req, r, x);
    }
  }

  lemma BothLeft(host: string, t: seq<Route>, path: string)
    requires |t| >= 2 && t[0] == Front(host, "") && t[1] == Api(host) && "/api/" <= path
    ensures FirstMatch(t, Request(host, path)) == Some(t[0]) && !RoutesByPrefix(t)
  {
    BothMatchApi(host, path);
    ShorterTakesFirst(t, Request(host, path));
  }

  lemma OneLeft(t: seq<Route>)
    requires |t| <= 2 && (|t| > 0 ==> t[|t| - 1].on.Missing? || |t| == 1)
    ensures RoutesByPrefix(t)
  {
    PathSortedRoutes(t);
  }

  /** Of the installed routes what is left is in order exactly when the front or the API is gone. */
  lemma LeftoverRoutesIff(host: string, ids: set<string>)
    ensures RoutesByPrefix(Minus(Installed(host), ids)) <==> FRONT in ids || API in ids
  {
    MinusOfThree(Front(host, ""), Api(host), Route(CATCH_ALL, Missing, ""), ids);
    var t := Minus(Installed(host), ids);
    if FRONT in ids || API in ids {
      OneLeft(t);
    } else {
      BothLeft(host, t, "/api/ping");
    }
  }

  // ---------------------------------------------------------------- the exact condition

  lemma UpsertedRoutes(registries: set<string>, host: string, n: nat, actions: seq<Action>)
    requires CallsOk(registries, actions) && {FRONT, API, CATCH_ALL} !! registries
    requires HasPut(Run(Init(Installed(host), n), actions).log)
    ensures RoutesByPrefix(Run(Init(Installed(host), n), actions).routes)
  {
    EveryTableIsPathSorted(registries, Installed(host), n, actions);
    PathSortedRoutes(Run(Init(Installed(host), n), actions).routes);
  }

  lemma UntouchedRoutesIff(registries: set<string>, host: string, n: nat, actions: seq<Action>)
    requires CallsOk(registries, actions) && {FRONT, API, CATCH_ALL} !! registries
    requires !HasPut(Run(Init(Installed(host), n), actions).log)
    ensures var s := Run(Init(Installed(host), n), actions);
            RoutesByPrefix(s.routes) <==> Dropped(s.log, FRONT) || Dropped(s.log, API)
  {
    var t0 := Installed(host);
    var s := Run(Init(t0, n), actions);
    TableIsFoldOfWrites(t0, n, actions);
    RunKeepsWritesOk(registries, Init(t0, n), actions);
    FoldIsMinus(registries, t0, s.log);
    LeftoverRoutesIff(host, DroppedIds(s.log));
    DroppedIdsAre(s.log, FRONT);
    DroppedIdsAre(s.log, API);
  }

  /** From the installed table on, every request goes to a matching route with the longest prefix
      exactly when some upsert has gone through, or the front or the API has been taken away. */
  lemma InstalledRoutesByPrefixIff(registries: set<string>, host: string, n: nat, actions: seq<Action>)
    requires CallsOk(registries, actions) && {FRONT, API, CATCH_ALL} !! registries
    ensures var s := Run(Init(Installed(host), n), actions);
            RoutesByPrefix(s.routes) <==> HasPut(s.log) || Dropped(s.log, FRONT) || Dropped(s.log, API)
  {
    if HasPut(Run(Init(Installed(host), n), actions).log) {
      UpsertedRoutes(registries, host, n, actions);
    } else {
      UntouchedRoutesIff(registries, host, n, actions);
    }
  }

  /** So the table as it is installed does not: the front gets the requests for the API. */
  lemma InstalledTableIsOutOfOrder(host: string)
    ensures FirstMatch(Installed(host), Request(host, "/api/ping")) == Some(Front(host, ""))
    ensures !RoutesByPrefix(Installed(host))
  {
    BothLeft(host, Installed(host), "/api/ping");
  }
}
