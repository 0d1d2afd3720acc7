/** The client loops of backend/temporal/proxy.py as they are written, over a server other
    workers use at the same time. Each is shown to be a run of the machine of ProxyServer. */
module ProxyClient {
  import opened Text
  import opened RouteTable
  import opened ProxyServer

  const HTTP_200_OK: nat := 200
  const HTTP_404_NOT_FOUND: nat := 404
  const HTTP_412_PRECONDITION_FAILED: nat := 412

  function ByOthers(c: nat, acts: seq<Action>): (r: seq<Action>)
    ensures forall a :: a in r ==> a.client != c
  {
    if acts == [] then []
    else (if acts[0].client != c then [acts[0]] else []) + ByOthers(c, acts[1..])
  }

  /** What happens to the server before request number `i` of a call. */
  function Gap(schedule: seq<seq<Action>>, i: nat): seq<Action> {
    if i < |schedule| then schedule[i] else []
  }

  lemma {:induction false} RunConcat(s: State, a: seq<Action>, b: seq<Action>)
    ensures Run(s, a + b) == Run(Run(s, a), b)
  {
    if b == [] {
      assert a + b == a;
    } else {
      var n := |b| - 1;
      RunConcat(s, a, b[..n]);
      assert (a + b)[..|a + b| - 1] == a + b[..n];
    }
  }

  /** The new part of a log holds no write of `c`. */
  ghost predicate Grown(c: nat, old0: seq<Entry>, log: seq<Entry>) {
    old0 <= log && NoneBy(c, log, |old0|, |log|)
  }

  lemma OtherLeavesClient(s: State, a: Action, c: nat)
    requires c < |s.clients| && a.client != c
    ensures var s' := Next(s, a);
            |s'.clients| == |s.clients| && s'.clients[c] == s.clients[c] && Grown(c, s.log, s'.log)
  {}

  lemma {:induction false} OthersLeaveClient(s: State, acts: seq<Action>, c: nat)
    requires c < |s.clients| && forall a :: a in acts ==> a.client != c
    ensures var s' := Run(s, acts);
            |s'.clients| == |s.clients| && s'.clients[c] == s.clients[c] && Grown(c, s.log, s'.log)
  {
    if acts != [] {
      var n := |acts| - 1;
      OthersLeaveClient(s, acts[..n], c);
      OtherLeavesClient(Run(s, acts[..n]), acts[n], c);
      GrownTransitive(c, s.log, Run(s, acts[..n]).log, Run(s, acts).log);
    }
  }

  lemma GrownTransitive(c: nat, a: seq<Entry>, b: seq<Entry>, d: seq<Entry>)
    requires Grown(c, a, b) && Grown(c, b, d)
    ensures Grown(c, a, d)
  {
    forall i | |a| <= i < |d| ensures d[i].client != c {
      if i < |b| { assert d[i] == b[i]; }
    }
  }

  /** The log since `old0` holds exactly one write of `c`, namely `w`. */
  ghost predicate WroteOnce(c: nat, old0: seq<Entry>, log: seq<Entry>, w: Write) {
    old0 < log && log[|log| - 1] == Entry(c, w) && Grown(c, old0, log[..|log| - 1])
  }

  lemma WroteAfter(c: nat, old0: seq<Entry>, log: seq<Entry>, w: Write)
    requires Grown(c, old0, log)
    ensures WroteOnce(c, old0, log + [Entry(c, w)], w)
  {
    assert (log + [Entry(c, w)])[..|log|] == log;
  }

  /** A removal that has returned wrote its one deletion, or wrote nothing because the route
      had gone. */
  ghost predicate RemovalOver(c: nat, id: string, old0: seq<Entry>, s: State) {
    && c < |s.clients| && s.clients[c].pc == Returned
    && (WroteOnce(c, old0, s.log, Drop(id)) || (Grown(c, old0, s.log) && Lookup(s.routes, id) == []))
  }

  /** An upsert that has returned wrote once. */
  ghost predicate UpsertOver(c: nat, url: Route, old0: seq<Entry>, s: State) {
    c < |s.clients| && s.clients[c].pc == Returned && WroteOnce(c, old0, s.log, Put(url))
  }

  /** A call refused for the `n`-th time has written nothing; after the last it raises. */
  ghost predicate CallRefused(c: nat, call: Call, old0: seq<Entry>, s: State, n: nat) {
    && c < |s.clients| && Grown(c, old0, s.log)
    && s.clients[c].pc == if n < MAX_ETAG_ATTEMPTS then Reading(call, n) else Raised(call)
  }

  lemma GrownThenWrote(c: nat, a: seq<Entry>, b: seq<Entry>, d: seq<Entry>, w: Write)
    requires Grown(c, a, b)
    ensures Grown(c, b, d) ==> Grown(c, a, d)
    ensures WroteOnce(c, b, d, w) ==> WroteOnce(c, a, d, w)
  {
    if Grown(c, b, d) { GrownTransitive(c, a, b, d); }
    if WroteOnce(c, b, d, w) { GrownTransitive(c, a, b, d[..|d| - 1]); }
  }

  lemma {:induction false} StaleIdsAre(t: seq<Route>, prefix: string, keep: set<string>, id: string)
    ensures id in StaleIds(t, prefix, keep)
            <==> prefix <= id && id !in keep && exists i :: 0 <= i < |t| && t[i].id == id
  {
    if t != [] {
      StaleIdsAre(t[1..], prefix, keep, id);
      if i :| 0 <= i < |t[1..]| && t[1..][i].id == id { assert t[i + 1].id == id; }
      if i :| 0 <= i < |t| && t[i].id == id { assert i > 0 ==> t[1..][i - 1].id == id; }
    }
  }

  lemma {:induction false} StaleIdsSnoc(t: seq<Route>, r: Route, prefix: string, keep: set<string>)
    ensures StaleIds(t + [r], prefix, keep) == StaleIds(t, prefix, keep) + StaleIds([r], prefix, keep)
  {
    if t == [] {
      assert t + [r] == [r];
    } else {
      assert (t + [r])[1..] == t[1..] + [r];
      StaleIdsSnoc(t[1..], r, prefix, keep);
    }
  }

  lemma {:induction false} GoneAfterWithout(t: seq<Route>, id: string)
    ensures Lookup(Without(t, id), id) == []
  {
    if t != [] {
      GoneAfterWithout(t[..|t| - 1], id);
      var u := Without(t[..|t| - 1], id);
      assert (u + [t[|t| - 1]])[..|u|] == u;
    }
  }

  /** Since `old0` client `c` has only deleted routes of these ids. */
  ghost predicate OnlyDrops(c: nat, old0: seq<Entry>, log: seq<Entry>, ids: seq<string>) {
    old0 <= log && forall i :: |old0| <= i < |log| && log[i].client == c ==>
      log[i].write.Drop? && log[i].write.id in ids
  }

  lemma OnlyDropsMore(c: nat, a: seq<Entry>, b: seq<Entry>, d: seq<Entry>, ids: seq<string>)
    requires OnlyDrops(c, a, b, ids) && OnlyDrops(c, b, d, ids)
    ensures OnlyDrops(c, a, d, ids)
  {
    forall i | |a| <= i < |d| && d[i].client == c ensures d[i].write.Drop? && d[i].write.id in ids {
      if i < |b| { assert d[i] == b[i]; }
    }
  }

  /** At some moment of the run the table had no route of this id. */
  ghost predicate GoneDuring(s: State, trace: seq<Action>, id: string) {
    exists n :: 0 <= n <= |trace| && GoneAt(s, trace, id, n)
  }

  ghost predicate GoneAt(s: State, trace: seq<Action>, id: string, n: nat)
    requires n <= |trace|
  {
    Lookup(Run(s, trace[..n]).routes, id) == []
  }

  lemma GoneStays(s: State, trace: seq<Action>, more: seq<Action>, id: string)
    requires GoneDuring(s, trace, id)
    ensures GoneDuring(s, trace + more, id)
  {
    var n :| 0 <= n <= |trace| && GoneAt(s, trace, id, n);
    assert (trace + more)[..n] == trace[..n];
    assert GoneAt(s, trace + more, id, n);
  }

  class ProxyAdmin {
    var st: State

    constructor (t0: seq<Route>, n: nat)
      ensures st == Init(t0, n)
    {
      st := Init(t0, n);
    }

    /** Other workers' actions happen. */
    method Others(c: nat, acts: seq<Action>) returns (ghost done: seq<Action>)
      requires c < |st.clients|
      modifies this
      ensures st == Run(old(st), done) && forall a :: a in done ==> a.client != c
      ensures |st.clients| == |old(st).clients| && st.clients[c] == old(st).clients[c]
      ensures Grown(c, old(st).log, st.log)
    {
      done := ByOthers(c, acts);
      OthersLeaveClient(st, done, c);
      st := Run(st, ByOthers(c, acts));
    }

    /** GET of the whole route list. */
    method GetRoutes(c: nat) returns (etag: Etag, routes: seq<Route>)
      requires c < |st.clients| && st.clients[c].pc.Reading? && st.clients[c].pc.call.UpsertUrl?
      modifies this
      ensures st == Step(old(st), c)
      ensures routes == old(st).routes && etag == Digest(routes)
    {
      routes := st.routes;
      etag := Digest(routes);
      var pc := st.clients[c].pc;
      st := Read(st, c, Writing(pc.call, pc.attempts + 1, etag));
    }

    /** PATCH of the whole route list under `If-Match`. */
    method PatchRoutes(c: nat, etag: Etag, body: seq<Route>) returns (status: nat)
      requires c < |st.clients| && st.clients[c].pc.Writing? && st.clients[c].pc.call.UpsertUrl?
      requires st.clients[c].pc.etag == etag && body == Upsert(etag.content, st.clients[c].pc.call.route)
      modifies this
      ensures st == Step(old(st), c)
      ensures status == if Digest(old(st).routes) == etag then HTTP_200_OK else HTTP_412_PRECONDITION_FAILED
    {
      var pc := st.clients[c].pc;
      if Digest(st.routes) == etag {
        st := Commit(st, c, Put(pc.call.route), body, Returned);
        status := HTTP_200_OK;
      } else {
        st := Refused(st, c, pc.call, pc.attempts);
        status := HTTP_412_PRECONDITION_FAILED;
      }
    }

    /** GET of one route. */
    method GetRoute(c: nat) returns (etag: Etag, status: nat)
      requires c < |st.clients| && st.clients[c].pc.Reading? && st.clients[c].pc.call.RemoveUrl?
      modifies this
      ensures st == Step(old(st), c)
      ensures etag == Digest(Lookup(old(st).routes, old(st).clients[c].pc.call.id))
      ensures status == if etag.content == [] then HTTP_404_NOT_FOUND else HTTP_200_OK
    {
      var pc := st.clients[c].pc;
      etag := Digest(Lookup(st.routes, pc.call.id));
      if etag.content == [] {
        st := At(st, c, Returned);
        status := HTTP_404_NOT_FOUND;
      } else {
        st := Read(st, c, Writing(pc.call, pc.attempts + 1, etag));
        status := HTTP_200_OK;
      }
    }

    /** DELETE of one route under `If-Match`; a route that has gone answers 404. */
    method DeleteRoute(c: nat, etag: Etag) returns (status: nat)
      requires c < |st.clients| && st.clients[c].pc.Writing? && st.clients[c].pc.call.RemoveUrl?
      requires st.clients[c].pc.etag == etag
      modifies this
      ensures st == Step(old(st), c)
      ensures var found := Digest(Lookup(old(st).routes, old(st).clients[c].pc.call.id));
              status == if found.content == [] then HTTP_404_NOT_FOUND
                        else if found == etag then HTTP_200_OK else HTTP_412_PRECONDITION_FAILED
      ensures |st.clients| == |old(st).clients|
      ensures status == HTTP_404_NOT_FOUND ==> Lookup(st.routes, old(st).clients[c].pc.call.id) == []
      ensures st.log == if status != HTTP_200_OK then old(st).log
                        else old(st).log + [Entry(c, Drop(old(st).clients[c].pc.call.id))]
      ensures var pc := old(st).clients[c].pc;
              st.clients[c].pc == if status != HTTP_412_PRECONDITION_FAILED then Returned
                                  else if pc.attempts < MAX_ETAG_ATTEMPTS then Reading(pc.call, pc.attempts)
                                  else Raised(pc.call)
    {
      var pc := st.clients[c].pc;
      var found := Digest(Lookup(st.routes, pc.call.id));
      if found.content == [] {
        st := At(st, c, Returned);
        status := HTTP_404_NOT_FOUND;
      } else if found == etag {
        st := Commit(st, c, Drop(pc.call.id), Without(st.routes, pc.call.id), Returned);
        status := HTTP_200_OK;
      } else {
        st := Refused(st, c, pc.call, pc.attempts);
        status := HTTP_412_PRECONDITION_FAILED;
      }
    }

    /** First half of a turn of the upsert loop: the GET, after whatever others do. */
    method FetchForUpsert(c: nat, url: Route, before: seq<Action>)
      returns (etag: Etag, routes: seq<Route>, ghost trace: seq<Action>)
      requires c < |st.clients| && st.clients[c].pc.Reading? && st.clients[c].pc.call == UpsertUrl(url)
      modifies this
      ensures st == Run(old(st), trace) && |st.clients| == |old(st).clients| && Grown(c, old(st).log, st.log)
      ensures st.clients[c].pc == Writing(UpsertUrl(url), old(st).clients[c].pc.attempts + 1, etag)
              && routes == etag.content
    {
      ghost var done := Others(c, before);
      etag, routes := GetRoutes(c);
      OneRequest(old(st), done, c);
      trace := done + [Act(c)];
    }

    /** Second half: the PATCH; `again` is the loop's `continue` on a 412. */
    method PatchIfMatch(c: nat, url: Route, etag: Etag, body: seq<Route>, before: seq<Action>)
      returns (again: bool, ghost trace: seq<Action>)
      requires c < |st.clients| && st.clients[c].pc.Writing? && st.clients[c].pc.call == UpsertUrl(url)
               && st.clients[c].pc.etag == etag
      requires body == Upsert(etag.content, url)
      modifies this
      ensures st == Run(old(st), trace) && |st.clients| == |old(st).clients|
      ensures if again then CallRefused(c, UpsertUrl(url), old(st).log, st, old(st).clients[c].pc.attempts)
              else UpsertOver(c, url, old(st).log, st)
    {
      ghost var done := Others(c, before);
      WroteAfter(c, old(st).log, st.log, Put(url));
      var status := PatchRoutes(c, etag, body);
      OneRequest(old(st), done, c);
      trace := done + [Act(c)];
      again := status == HTTP_412_PRECONDITION_FAILED;
    }

    /** One turn of the loop of `upsert_service_url`. */
    method TryUpsert(c: nat, url: Route, before: seq<Action>, between: seq<Action>)
      returns (again: bool, ghost trace: seq<Action>)
      requires c < |st.clients| && st.clients[c].pc.Reading? && st.clients[c].pc.call == UpsertUrl(url)
      modifies this
      ensures st == Run(old(st), trace) && |st.clients| == |old(st).clients|
      ensures if again then CallRefused(c, UpsertUrl(url), old(st).log, st, old(st).clients[c].pc.attempts + 1)
              else UpsertOver(c, url, old(st).log, st)
    {
      var etag, routes;
      etag, routes, trace := FetchForUpsert(c, url, before);
      routes := Without(routes, url.id);
      routes := routes + [url];
      routes := Sort(routes);
      ghost var mid, more := st, [];
      again, more := PatchIfMatch(c, url, etag, routes, between);
      RunConcat(old(st), trace, more);
      GrownThenWrote(c, old(st).log, mid.log, st.log, Put(url));
      trace := trace + more;
    }

    /** `upsert_service_url` and `upsert_compose_stack_service_url`: the call is a run of the
        machine; it writes exactly once if it returns and not at all if it raises. */
    method UpsertServiceUrl(c: nat, url: Route, schedule: seq<seq<Action>>) returns (ok: bool, ghost trace: seq<Action>)
      requires c < |st.clients| && st.clients[c].pc.Idle?
      modifies this
      ensures st == Run(old(st), trace) && |st.clients| == |old(st).clients|
      ensures ok ==> UpsertOver(c, url, old(st).log, st)
      ensures !ok ==> CallRefused(c, UpsertUrl(url), old(st).log, st, MAX_ETAG_ATTEMPTS)
    {
      st := Next(st, Begin(c, UpsertUrl(url)));
      trace := [Begin(c, UpsertUrl(url))];
      assert trace[..0] == [];
      var attempts := 0;
      while attempts < MAX_ETAG_ATTEMPTS
        invariant st == Run(old(st), trace) && |st.clients| == |old(st).clients| && attempts <= MAX_ETAG_ATTEMPTS
        invariant Grown(c, old(st).log, st.log)
        invariant st.clients[c].pc == if attempts < MAX_ETAG_ATTEMPTS then Reading(UpsertUrl(url), attempts)
                                      else Raised(UpsertUrl(url))
      {
        attempts := attempts + 1;
        ghost var before, more := st.log, [];
        var again;
        again, more := TryUpsert(c, url, Gap(schedule, 2 * attempts - 2), Gap(schedule, 2 * attempts - 1));
        RunConcat(old(st), trace, more);
        GrownThenWrote(c, old(st).log, before, st.log, Put(url));
        trace := trace + more;
        if again { continue; }
        return true, trace;
      }
      return false, trace;
    }

    /** First half of a turn of `remove_service_url`: the GET, after whatever others do. */
    method FetchForRemoval(c: nat, id: string, before: seq<Action>)
      returns (etag: Etag, status: nat, ghost trace: seq<Action>)
      requires c < |st.clients| && st.clients[c].pc.Reading? && st.clients[c].pc.call == RemoveUrl(id)
      modifies this
      ensures st == Run(old(st), trace) && |st.clients| == |old(st).clients| && Grown(c, old(st).log, st.log)
      ensures st.clients[c].pc == if status == HTTP_404_NOT_FOUND then Returned
                                  else Writing(RemoveUrl(id), old(st).clients[c].pc.attempts + 1, etag)
      ensures status == HTTP_404_NOT_FOUND ==> Lookup(st.routes, id) == []
    {
      ghost var done := Others(c, before);
      etag, status := GetRoute(c);
      OneRequest(old(st), done, c);
      trace := done + [Act(c)];
    }

    /** Second half: the DELETE; `again` is the loop's `continue` on a 412. */
    method DeleteIfMatch(c: nat, id: string, etag: Etag, before: seq<Action>)
      returns (again: bool, ghost trace: seq<Action>)
      requires c < |st.clients| && st.clients[c].pc.Writing? && st.clients[c].pc.call == RemoveUrl(id)
               && st.clients[c].pc.etag == etag
      modifies this
      ensures st == Run(old(st), trace) && |st.clients| == |old(st).clients|
      ensures if again then CallRefused(c, RemoveUrl(id), old(st).log, st, old(st).clients[c].pc.attempts)
              else RemovalOver(c, id, old(st).log, st)
    {
      ghost var done := Others(c, before);
      WroteAfter(c, old(st).log, st.log, Drop(id));
      var status := DeleteRoute(c, etag);
      OneRequest(old(st), done, c);
      trace := done + [Act(c)];
      again := status == HTTP_412_PRECONDITION_FAILED;
    }

    /** One turn of the loop of `remove_service_url`. */
    method TryRemove(c: nat, id: string, before: seq<Action>, between: seq<Action>)
      returns (again: bool, ghost trace: seq<Action>)
      requires c < |st.clients| && st.clients[c].pc.Reading? && st.clients[c].pc.call == RemoveUrl(id)
      modifies this
      ensures st == Run(old(st), trace) && |st.clients| == |old(st).clients|
      ensures if again then CallRefused(c, RemoveUrl(id), old(st).log, st, old(st).clients[c].pc.attempts + 1)
              else RemovalOver(c, id, old(st).log, st)
    {
      again := false;
      var etag, status;
      etag, status, trace := FetchForRemoval(c, id, before);
      if status != HTTP_404_NOT_FOUND {
        ghost var mid, more := st, [];
        again, more := DeleteIfMatch(c, id, etag, between);
        RunConcat(old(st), trace, more);
        GrownThenWrote(c, old(st).log, mid.log, st.log, Drop(id));
        trace := trace + more;
        assert st == Run(old(st), trace);
      }
    }

    /** `remove_service_url`: it deletes at most once, and if it returns without deleting the
        route had already gone. */
    method RemoveServiceUrl(c: nat, id: string, schedule: seq<seq<Action>>) returns (ok: bool, ghost trace: seq<Action>)
      requires c < |st.clients| && st.clients[c].pc.Idle?
      modifies this
      ensures st == Run(old(st), trace) && |st.clients| == |old(st).clients|
      ensures ok ==> RemovalOver(c, id, old(st).log, st)
      ensures !ok ==> CallRefused(c, RemoveUrl(id), old(st).log, st, MAX_ETAG_ATTEMPTS)
    {
      st := Next(st, Begin(c, RemoveUrl(id)));
      trace := [Begin(c, RemoveUrl(id))];
      assert trace[..0] == [];
      var attempts := 0;
      while attempts < MAX_ETAG_ATTEMPTS
        invariant st == Run(old(st), trace) && |st.clients| == |old(st).clients| && attempts <= MAX_ETAG_ATTEMPTS
        invariant Grown(c, old(st).log, st.log)
        invariant st.clients[c].pc == if attempts < MAX_ETAG_ATTEMPTS then Reading(RemoveUrl(id), attempts)
                                      else Raised(RemoveUrl(id))
      {
        attempts := attempts + 1;
        ghost var before, more := st.log, [];
        var again;
        again, more := TryRemove(c, id, Gap(schedule, 2 * attempts - 2), Gap(schedule, 2 * attempts - 1));
        RunConcat(old(st), trace, more);
        GrownThenWrote(c, old(st).log, before, st.log, Drop(id));
        trace := trace + more;
        if again { continue; }
        return true, trace;
      }
      return false, trace;
    }

    /** DELETE of one route without a condition, after whatever others do; the first of the
        collected ids goes. */
    method DeleteStale(c: nat, id: string, rest: seq<string>, before: seq<Action>) returns (ghost trace: seq<Action>)
      requires c < |st.clients| && st.clients[c].pc == Sweeping([id] + rest)
      modifies this
      ensures st == Run(old(st), trace) && |st.clients| == |old(st).clients| && st.clients[c].pc == Sweeping(rest)
      ensures OnlyDrops(c, old(st).log, st.log, [id]) && Lookup(st.routes, id) == []
    {
      ghost var done := Others(c, before);
      GoneAfterWithout(st.routes, id);
      assert ([id] + rest)[1..] == rest;
      if Lookup(st.routes, id) == [] {
        st := At(st, c, Sweeping(rest));
      } else {
        st := Commit(st, c, Drop(id), Without(st.routes, id), Sweeping(rest));
      }
      OneRequest(old(st), done, c);
      trace := done + [Act(c)];
    }

    method FindStale(routes: seq<Route>, prefix: string, keep: set<string>) returns (ids: seq<string>)
      ensures ids == StaleIds(routes, prefix, keep)
    {
      ids := [];
      for i := 0 to |routes|
        invariant ids == StaleIds(routes[..i], prefix, keep)
      {
        var route := routes[i];
        StaleIdsSnoc(routes[..i], route, prefix, keep);
        assert routes[..i + 1] == routes[..i] + [route];
        if prefix <= route.id && route.id !in keep { ids := ids + [route.id]; }
      }
      assert routes[..|routes|] == routes;
    }

    /** The GET of a cleanup, after whatever others do. */
    method CollectStale(c: nat, prefix: string, keep: set<string>, before: seq<Action>)
      returns (ids: seq<string>, ghost read: seq<Route>, ghost trace: seq<Action>)
      requires c < |st.clients| && st.clients[c].pc == Reading(CleanUp(prefix, keep), 0)
      modifies this
      ensures st == Run(old(st), trace) && |st.clients| == |old(st).clients| && Grown(c, old(st).log, st.log)
      ensures read == st.routes && ids == StaleIds(read, prefix, keep) && st.clients[c].pc == Sweeping(ids)
    {
      ghost var done := Others(c, before);
      read := st.routes;
      ids := FindStale(st.routes, prefix, keep);
      st := At(st, c, Sweeping(ids));
      OneRequest(old(st), done, c);
      trace := done + [Act(c)];
    }

    /** The deletions of a cleanup. */
    method Sweep(c: nat, ids: seq<string>, schedule: seq<seq<Action>>) returns (ghost trace: seq<Action>)
      requires c < |st.clients| && st.clients[c].pc == Sweeping(ids)
      modifies this
      ensures st == Run(old(st), trace) && |st.clients| == |old(st).clients| && st.clients[c].pc == Sweeping([])
      ensures OnlyDrops(c, old(st).log, st.log, ids) && AllGone(old(st), trace, ids)
    {
      trace := [];
      ghost var more;
      var i := 0;
      while i < |ids|
        invariant i <= |ids| && st == Run(old(st), trace) && |st.clients| == |old(st).clients|
        invariant st.clients[c].pc == Sweeping(ids[i..])
        invariant OnlyDrops(c, old(st).log, st.log, ids) && AllGone(old(st), trace, ids[..i])
      {
        assert ids[i..] == [ids[i]] + ids[i + 1..];
        ghost var log := st.log;
        more := DeleteStale(c, ids[i], ids[i + 1..], Gap(schedule, i + 1));
        OnlyDropsMore(c, old(st).log, log, st.log, ids);
        SweepMore(old(st), trace, more, ids, i);
        trace := trace + more;
        i := i + 1;
      }
      assert ids[..i] == ids && ids[i..] == [];
    }

    /** `cleanup_old_compose_stack_service_urls`: it deletes nothing but the stack's routes that
        are not among the ones to keep, and each of those it found is gone at some moment. */
    method CleanUpUrls(c: nat, prefix: string, keep: set<string>, schedule: seq<seq<Action>>)
      returns (deleted: seq<string>, ghost first: seq<Action>, ghost rest: seq<Action>)
      requires c < |st.clients| && st.clients[c].pc.Idle?
      modifies this
      ensures st == Run(old(st), first + rest) && |st.clients| == |old(st).clients| && st.clients[c].pc == Returned
      ensures deleted == StaleIds(Run(old(st), first).routes, prefix, keep)
      ensures OnlyDrops(c, old(st).log, st.log, deleted)
      ensures AllGone(Run(old(st), first), rest, deleted)
    {
      ghost var read, more;
      first := [Begin(c, CleanUp(prefix, keep))];
      assert first[..0] == [];
      st := Next(st, Begin(c, CleanUp(prefix, keep)));
      deleted, read, more := CollectStale(c, prefix, keep, Gap(schedule, 0));
      RunConcat(old(st), first, more);
      first := first + more;
      ghost var mid := st;
      rest := Sweep(c, deleted, schedule);
      SweepDone(mid, rest, c, deleted);
      OnlyDropsMore(c, old(st).log, mid.log, st.log, deleted);
      st := At(st, c, Returned);
      rest := rest + [Act(c)];
      RunConcat(old(st), first, rest);
    }
  }

  ghost predicate AllGone(s: State, trace: seq<Action>, ids: seq<string>) {
    forall j :: 0 <= j < |ids| ==> GoneDuring(s, trace, ids[j])
  }

  lemma GoneNow(s: State, trace: seq<Action>, id: string)
    requires Lookup(Run(s, trace).routes, id) == []
    ensures GoneDuring(s, trace, id)
  {
    assert trace[..|trace|] == trace;
    assert GoneAt(s, trace, id, |trace|);
  }

  lemma SweepMore(s: State, trace: seq<Action>, more: seq<Action>, ids: seq<string>, i: nat)
    requires i < |ids| && Lookup(Run(Run(s, trace), more).routes, ids[i]) == [] && AllGone(s, trace, ids[..i])
    ensures Run(s, trace + more) == Run(Run(s, trace), more) && AllGone(s, trace + more, ids[..i + 1])
  {
    RunConcat(s, trace, more);
    var all := trace + more;
    GoneNow(s, all, ids[i]);
    forall j | 0 <= j < i ensures GoneDuring(s, all, ids[j]) {
      assert ids[..i][j] == ids[j];
      GoneStays(s, trace, more, ids[j]);
    }
  }

  lemma SweepDone(s: State, trace: seq<Action>, c: nat, ids: seq<string>)
    requires c < |Run(s, trace).clients| && Run(s, trace).clients[c].pc == Sweeping([]) && AllGone(s, trace, ids)
    ensures Run(s, trace + [Act(c)]) == At(Run(s, trace), c, Returned) && AllGone(s, trace + [Act(c)], ids)
  {
    OneRequest(s, trace, c);
    forall j | 0 <= j < |ids| ensures GoneDuring(s, trace + [Act(c)], ids[j]) { GoneStays(s, trace, [Act(c)], ids[j]); }
  }

  lemma OneRequest(s: State, done: seq<Action>, c: nat)
    requires c < |Run(s, done).clients|
    ensures Run(s, done + [Act(c)]) == Step(Run(s, done), c)
  {
    assert (done + [Act(c)])[..|done|] == done;
  }
}
