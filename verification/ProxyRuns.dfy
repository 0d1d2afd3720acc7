/** What every run of the proxy's clients keeps, for any number of clients and any
    interleaving of their requests. */
module ProxyRuns {
  import opened Text
  import opened RouteTable
  import opened Routing
  import opened ProxyServer

  lemma InitInv(t0: seq<Route>, n: nat)
    ensures Inv(t0, Init(t0, n))
  {}

  /** In every reachable state the table is the starting table with the successful writes
      applied one after the other, in commit order. */
  lemma TableIsFoldOfWrites(t0: seq<Route>, n: nat, actions: seq<Action>)
    ensures var s := Run(Init(t0, n), actions); s.routes == Fold(t0, s.log)
  {
    InitInv(t0, n);
    RunKeepsInv(t0, Init(t0, n), actions);
  }

  // ---------------------------------------------------------------- ids

  lemma InPlaceKeepsUnique(t: seq<Route>, r: Route)
    requires UniqueIds(t)
    ensures UniqueIds(InPlace(t, r))
  {
    var u := InPlace(t, r);
    forall i, j | 0 <= i < j < |u| ensures u[i].id != u[j].id {
      assert t[i].id != t[j].id && u[i].id == t[i].id && u[j].id == t[j].id;
    }
  }

  lemma AppliedKeepsUnique(t: seq<Route>, w: Write)
    requires UniqueIds(t)
    ensures UniqueIds(Applied(t, w))
  {
    match w
    case Put(r) => UpsertKeepsUnique(t, r);
    case Drop(id) => WithoutKeepsUnique(t, id);
    case Replace(r) => InPlaceKeepsUnique(t, r);
  }

  lemma {:induction false} FoldKeepsUnique(t0: seq<Route>, log: seq<Entry>)
    requires UniqueIds(t0)
    ensures UniqueIds(Fold(t0, log))
  {
    if log != [] {
      FoldKeepsUnique(t0, log[..|log| - 1]);
      AppliedKeepsUnique(Fold(t0, log[..|log| - 1]), log[|log| - 1].write);
    }
  }

  /** No interleaving ever puts two routes with one id in the table. */
  lemma IdsStayUnique(t0: seq<Route>, n: nat, actions: seq<Action>)
    requires UniqueIds(t0)
    ensures UniqueIds(Run(Init(t0, n), actions).routes)
  {
    TableIsFoldOfWrites(t0, n, actions);
    FoldKeepsUnique(t0, Run(Init(t0, n), actions).log);
  }

  // ---------------------------------------------------------------- survival

  function IdOf(w: Write): string {
    match w case Put(r) => r.id case Drop(id) => id case Replace(r) => r.id
  }

  ghost predicate OnlyRouteOfId(t: seq<Route>, r: Route) {
    r in t && forall x :: x in t && x.id == r.id ==> x == r
  }

  lemma AppliedKeepsOthers(t: seq<Route>, w: Write, r: Route)
    requires OnlyRouteOfId(t, r) && IdOf(w) != r.id
    ensures OnlyRouteOfId(Applied(t, w), r)
  {
    match w
    case Put(p) =>
      forall x ensures x in Upsert(t, p) <==> x == p || (x in t && x.id != p.id) { UpsertContents(t, p, x); }
    case Drop(id) =>
      forall x ensures x in Without(t, id) <==> x in t && x.id != id { WithoutMembers(t, id, x); }
    case Replace(p) =>
      var i :| 0 <= i < |t| && t[i] == r;
      assert InPlace(t, p)[i] == r;
  }

  lemma {:induction false} PutSurvivesInLog(t0: seq<Route>, log: seq<Entry>, i: nat, r: Route)
    requires i < |log| && log[i].write == Put(r)
    requires forall j :: i < j < |log| ==> IdOf(log[j].write) != r.id
    ensures OnlyRouteOfId(Fold(t0, log), r)
  {
    var n := |log| - 1;
    var t := Fold(t0, log[..n]);
    if i == n {
      forall x ensures x in Upsert(t, r) <==> x == r || (x in t && x.id != r.id) { UpsertContents(t, r, x); }
    } else {
      PutSurvivesInLog(t0, log[..n], i, r);
      AppliedKeepsOthers(t, log[n].write, r);
    }
  }

  /** A committed upsert stays in the table, as the only route of its id, until a later write
      to the same id. */
  lemma UpsertSurvives(t0: seq<Route>, n: nat, actions: seq<Action>, i: nat, r: Route)
    requires var log := Run(Init(t0, n), actions).log;
             i < |log| && log[i].write == Put(r) && forall j :: i < j < |log| ==> IdOf(log[j].write) != r.id
    ensures OnlyRouteOfId(Run(Init(t0, n), actions).routes, r)
  {
    TableIsFoldOfWrites(t0, n, actions);
    PutSurvivesInLog(t0, Run(Init(t0, n), actions).log, i, r);
  }

  // ---------------------------------------------------------------- refusals

  /** What a call looks at, before the first write and after each. */
  function Views(t0: seq<Route>, log: seq<Entry>, view: Option<string>): seq<seq<Route>> {
    seq(|log| + 1, k requires 0 <= k <= |log| => View(view, Fold(t0, log[..k])))
  }

  /** Write `i` was made by somebody else and changed what the call looks at. */
  ghost predicate ForeignChange(ts: seq<seq<Route>>, log: seq<Entry>, c: nat, i: int)
    requires |ts| == |log| + 1
  {
    0 <= i < |log| && log[i].client != c && ts[i] != ts[i + 1]
  }

  lemma {:induction false} ChangeInside<T>(ts: seq<T>, lo: nat, hi: nat) returns (i: nat)
    requires lo <= hi < |ts| && ts[lo] != ts[hi]
    ensures lo <= i < hi && ts[i] != ts[i + 1]
    decreases hi - lo
  {
    i := hi - 1;
    if ts[i] == ts[hi] { i := ChangeInside(ts, lo, i); }
  }

  /** In this span of the log only others wrote, and what the call looks at changed. */
  ghost predicate ChangedIn(ts: seq<seq<Route>>, log: seq<Entry>, c: nat, span: (nat, nat))
    requires |ts| == |log| + 1
  {
    span.0 <= span.1 <= |log| && NoneBy(c, log, span.0, span.1) && ts[span.0] != ts[span.1]
  }

  lemma RefusalInViews(t0: seq<Route>, log: seq<Entry>, c: nat, view: Option<string>, span: (nat, nat))
    requires RefusalOk(t0, log, c, view, span)
    ensures ChangedIn(Views(t0, log, view), log, c, span)
  {
    assert Views(t0, log, view)[span.0] == View(view, Fold(t0, log[..span.0]));
    assert Views(t0, log, view)[span.1] == View(view, Fold(t0, log[..span.1]));
  }

  lemma RefusalsInViews(t0: seq<Route>, log: seq<Entry>, c: nat, view: Option<string>,
                        started: nat, refusals: seq<(nat, nat)>)
    requires RefusalsOk(t0, log, c, view, started, refusals)
    ensures forall k :: 0 <= k < |refusals| ==> ChangedIn(Views(t0, log, view), log, c, refusals[k])
  {
    forall k | 0 <= k < |refusals| ensures ChangedIn(Views(t0, log, view), log, c, refusals[k]) {
      RefusalInViews(t0, log, c, view, refusals[k]);
    }
  }

  lemma SpanHasChange(ts: seq<seq<Route>>, log: seq<Entry>, c: nat, span: (nat, nat)) returns (i: nat)
    requires |ts| == |log| + 1 && ChangedIn(ts, log, c, span)
    ensures span.0 <= i < span.1 && ForeignChange(ts, log, c, i)
  {
    i := ChangeInside(ts, span.0, span.1);
  }

  lemma {:induction false} SpansAreInside(len: nat, started: nat, spans: seq<(nat, nat)>, k: nat)
    requires SpansOk(len, started, spans) && k < |spans|
    ensures started <= spans[k].0 <= spans[k].1 <= len
    ensures k > 0 ==> spans[k - 1].1 <= spans[k].0
  {
    var n := |spans| - 1;
    if k < n {
      SpansAreInside(len, started, spans[..n], k);
    } else if n > 0 {
      SpansAreInside(len, started, spans[..n], n - 1);
    }
  }

  /** A call that gives up with an etag error was overtaken: for each of its three refusals
      another client made a write that changed what the call had read (the table for an upsert,
      its one route for a removal) between that attempt's GET and its PATCH or DELETE, so three
      different writes, the first after the call began. */
  lemma GivingUpMeansOvertaken(t0: seq<Route>, n: nat, actions: seq<Action>, c: nat) returns (at: seq<nat>)
    requires c < |Run(Init(t0, n), actions).clients|
    requires var pc := Run(Init(t0, n), actions).clients[c].pc; pc.Raised? && Retried(pc.call)
    ensures |at| == MAX_ETAG_ATTEMPTS == |Run(Init(t0, n), actions).clients[c].refusals|
    ensures var s := Run(Init(t0, n), actions);
            var cl := s.clients[c];
            forall k :: 0 <= k < |at| ==>
              && cl.started <= cl.refusals[k].0 <= at[k] < cl.refusals[k].1 <= |s.log|
              && ForeignChange(Views(t0, s.log, ViewOf(cl.pc.call)), s.log, c, at[k])
    ensures forall k, m :: 0 <= k < m < |at| ==> at[k] < at[m]
  {
    InitInv(t0, n);
    RunKeepsInv(t0, Init(t0, n), actions);
    var s := Run(Init(t0, n), actions);
    var cl := s.clients[c];
    var view := ViewOf(cl.pc.call);
    assert ClientOk(t0, s.log, c, cl);
    RefusalsInViews(t0, s.log, c, view, cl.started, cl.refusals);
    at := SpansHaveChanges(Views(t0, s.log, view), s.log, c, cl.refusals);
    InOrder(|s.log|, cl.started, cl.refusals, at);
  }

  /** One write inside each of three spans: they are in order. */
  lemma InOrder(len: nat, started: nat, spans: seq<(nat, nat)>, at: seq<nat>)
    requires SpansOk(len, started, spans) && |spans| == |at| == 3
    requires forall k :: 0 <= k < 3 ==> spans[k].0 <= at[k] < spans[k].1
    ensures forall k :: 0 <= k < 3 ==> started <= spans[k].0 && spans[k].1 <= len
    ensures forall k, m :: 0 <= k < m < 3 ==> at[k] < at[m]
  {
    SpansAreInside(len, started, spans, 0);
    SpansAreInside(len, started, spans, 1);
    SpansAreInside(len, started, spans, 2);
  }

  lemma {:induction false} SpansHaveChanges(ts: seq<seq<Route>>, log: seq<Entry>, c: nat, spans: seq<(nat, nat)>)
    returns (at: seq<nat>)
    requires |ts| == |log| + 1 && forall k :: 0 <= k < |spans| ==> ChangedIn(ts, log, c, spans[k])
    ensures |at| == |spans|
    ensures forall k :: 0 <= k < |at| ==> spans[k].0 <= at[k] < spans[k].1 && ForeignChange(ts, log, c, at[k])
  {
    at := [];
    if spans != [] {
      var n := |spans| - 1;
      at := SpansHaveChanges(ts, log, c, spans[..n]);
      var i := SpanHasChange(ts, log, c, spans[n]);
      at := at + [i];
    }
  }

  // ---------------------------------------------------------------- refused removals

  lemma {:induction false} LookupIs(t: seq<Route>, id: string, r: Route)
    ensures r in Lookup(t, id) <==> r in t && r.id == id
  {
    if t != [] {
      var n := |t| - 1;
      LookupIs(t[..n], id, r);
      assert t == t[..n] + [t[n]];
    }
  }

  lemma AbsentIsNotFound(t: seq<Route>, id: string)
    requires forall i :: 0 <= i < |t| ==> t[i].id != id
    ensures Lookup(t, id) == []
  {
    if Lookup(t, id) != [] { LookupIs(t, id, Lookup(t, id)[0]); }
  }

  lemma {:induction false} LookupIsOne(t: seq<Route>, id: string)
    requires UniqueIds(t)
    ensures |Lookup(t, id)| <= 1
  {
    if t != [] {
      var n := |t| - 1;
      if t[n].id == id { AbsentIsNotFound(t[..n], id); } else { LookupIsOne(t[..n], id); }
    }
  }

  /** Two lists of at most one route with the same members are the same. */
  lemma ShortListsAgree(a: seq<Route>, b: seq<Route>)
    requires |a| <= 1 && |b| <= 1 && forall r :: r in a <==> r in b
    ensures a == b
  {
    if |a| == 1 { assert a[0] in b; }
    if |b| == 1 { assert b[0] in a; }
  }

  lemma AppliedMembers(t: seq<Route>, w: Write, r: Route)
    requires r.id != IdOf(w)
    ensures r in Applied(t, w) <==> r in t
  {
    match w
    case Put(p) => UpsertContents(t, p, r);
    case Drop(id) => WithoutMembers(t, id, r);
    case Replace(p) =>
      if i :| 0 <= i < |t| && t[i] == r { assert InPlace(t, p)[i] == r; }
      if i :| 0 <= i < |t| && InPlace(t, p)[i] == r { assert t[i] == r; }
  }

  /** A write to another id leaves the route of an id as it is. */
  lemma OtherIdsUnchanged(t: seq<Route>, w: Write, id: string)
    requires UniqueIds(t) && UniqueIds(Applied(t, w)) && IdOf(w) != id
    ensures Lookup(Applied(t, w), id) == Lookup(t, id)
  {
    LookupIsOne(t, id);
    LookupIsOne(Applied(t, w), id);
    forall r ensures r in Lookup(Applied(t, w), id) <==> r in Lookup(t, id) {
      LookupIs(t, id, r);
      LookupIs(Applied(t, w), id, r);
      if r.id == id { AppliedMembers(t, w, r); }
    }
    ShortListsAgree(Lookup(Applied(t, w), id), Lookup(t, id));
  }

  lemma ViewsStep(t0: seq<Route>, log: seq<Entry>, view: Option<string>, i: nat)
    requires i < |log|
    ensures Views(t0, log, view)[i] == View(view, Fold(t0, log[..i]))
    ensures Views(t0, log, view)[i + 1] == View(view, Applied(Fold(t0, log[..i]), log[i].write))
  {
    assert log[..i + 1][..i] == log[..i];
  }

  lemma ChangeIsToId(t0: seq<Route>, log: seq<Entry>, c: nat, id: string, i: nat)
    requires UniqueIds(t0) && ForeignChange(Views(t0, log, Some(id)), log, c, i)
    ensures IdOf(log[i].write) == id
  {
    var t, w := Fold(t0, log[..i]), log[i].write;
    FoldKeepsUnique(t0, log[..i]);
    ViewsStep(t0, log, Some(id), i);
    if IdOf(w) != id {
      AppliedKeepsUnique(t, w);
      OtherIdsUnchanged(t, w, id);
    }
  }

  /** A removal that gives up was overtaken by three writes to the very route it was to remove. */
  lemma RemovalLosesToItsOwnRoute(t0: seq<Route>, n: nat, actions: seq<Action>, c: nat, id: string)
    returns (at: seq<nat>)
    requires UniqueIds(t0) && c < |Run(Init(t0, n), actions).clients|
    requires Run(Init(t0, n), actions).clients[c].pc == Raised(RemoveUrl(id))
    ensures |at| == MAX_ETAG_ATTEMPTS == |Run(Init(t0, n), actions).clients[c].refusals|
    ensures var s := Run(Init(t0, n), actions);
            forall k :: 0 <= k < |at| ==>
              && s.clients[c].refusals[k].0 <= at[k] < s.clients[c].refusals[k].1 <= |s.log|
              && s.log[at[k]].client != c && IdOf(s.log[at[k]].write) == id
    ensures forall k, m :: 0 <= k < m < |at| ==> at[k] < at[m]
  {
    at := GivingUpMeansOvertaken(t0, n, actions, c);
    var s := Run(Init(t0, n), actions);
    forall k | 0 <= k < |at| ensures IdOf(s.log[at[k]].write) == id { ChangeIsToId(t0, s.log, c, id, at[k]); }
  }

  // ---------------------------------------------------------------- order

  /** Each route patched in place keeps the specificity of its path. */
  ghost predicate ReplacesKeepPaths(t0: seq<Route>, log: seq<Entry>) {
    forall i :: 0 <= i < |log| ==> KeepsPath(Fold(t0, log[..i]), log[i].write)
  }

  ghost predicate KeepsPath(t: seq<Route>, w: Write) {
    w.Replace? ==> forall x :: x in t && x.id == w.route.id ==> PathSpecificity(x.on) == PathSpecificity(w.route.on)
  }

  /** The table was in order at the start, or some upsert has sorted it since. */
  ghost predicate OnceSorted(t0: seq<Route>, log: seq<Entry>) {
    PathSorted(t0) || exists i :: 0 <= i < |log| && log[i].write.Put?
  }

  lemma {:induction false} WithoutKeepsPathSorted(t: seq<Route>, id: string)
    requires PathSorted(t)
    ensures PathSorted(Without(t, id))
  {
    if t != [] {
      var n := |t| - 1;
      WithoutKeepsPathSorted(t[..n], id);
      var u := Without(t[..n], id);
      forall i | 0 <= i < |u| ensures !PathBefore(PathSpecificity(t[n].on), PathSpecificity(u[i].on)) {
        WithoutMembers(t[..n], id, u[i]);
      }
    }
  }

  lemma InPlaceKeepsPathSorted(t: seq<Route>, r: Route)
    requires PathSorted(t) && KeepsPath(t, Replace(r))
    ensures PathSorted(InPlace(t, r))
  {
    var u := InPlace(t, r);
    forall i | 0 <= i < |u| ensures PathSpecificity(u[i].on) == PathSpecificity(t[i].on) { assert t[i] in t; }
  }

  lemma WriteKeepsPathSorted(t: seq<Route>, w: Write)
    requires (w.Put? || PathSorted(t)) && KeepsPath(t, w)
    ensures PathSorted(Applied(t, w))
  {
    match w
    case Put(r) =>
      UpsertContents(t, r, r);
      SortedIsPathSorted(Upsert(t, r));
    case Drop(id) => WithoutKeepsPathSorted(t, id);
    case Replace(r) => InPlaceKeepsPathSorted(t, r);
  }

  lemma PathsKeptBefore(t0: seq<Route>, log: seq<Entry>)
    requires log != [] && ReplacesKeepPaths(t0, log)
    ensures ReplacesKeepPaths(t0, log[..|log| - 1])
  {
    var n := |log| - 1;
    forall i | 0 <= i < n ensures KeepsPath(Fold(t0, log[..n][..i]), log[..n][i].write) {
      assert log[..n][..i] == log[..i];
    }
  }

  lemma OnceSortedBefore(t0: seq<Route>, log: seq<Entry>)
    requires log != [] && OnceSorted(t0, log) && !log[|log| - 1].write.Put?
    ensures OnceSorted(t0, log[..|log| - 1])
  {
    var n := |log| - 1;
    if i :| 0 <= i < |log| && log[i].write.Put? { assert log[..n][i].write.Put?; }
  }

  lemma {:induction false} FoldIsPathSorted(t0: seq<Route>, log: seq<Entry>)
    requires OnceSorted(t0, log) && ReplacesKeepPaths(t0, log)
    ensures PathSorted(Fold(t0, log))
  {
    if log != [] {
      var n := |log| - 1;
      if !log[n].write.Put? {
        PathsKeptBefore(t0, log);
        OnceSortedBefore(t0, log);
        FoldIsPathSorted(t0, log[..n]);
      }
      assert KeepsPath(Fold(t0, log[..n]), log[n].write);
      WriteKeepsPathSorted(Fold(t0, log[..n]), log[n].write);
    }
  }

  // ---------------------------------------------------------------- registry routes

  /** A registry route has no path, neither before nor after it is patched in place. */
  ghost predicate RegistryShape(registries: set<string>, r: Route) {
    r.id in registries ==> r.on.On? && r.on.path == ""
  }

  /** What the callers pass: registry routes under registry ids and without a path, and no
      other route under a registry id. */
  ghost predicate CallOk(registries: set<string>, call: Call) {
    match call
    case UpsertUrl(r) => RegistryShape(registries, r)
    case UpsertRegistry(r) => r.id in registries && RegistryShape(registries, r)
    case _ => true
  }

  ghost predicate WriteOk(registries: set<string>, w: Write) {
    match w
    case Put(r) => RegistryShape(registries, r)
    case Replace(r) => r.id in registries && RegistryShape(registries, r)
    case Drop(_) => true
  }

  ghost predicate PcKnows(registries: set<string>, pc: Pc) {
    match pc
    case Probing(r) => r.id in registries && RegistryShape(registries, r)
    case Reading(call, _) => CallOk(registries, call)
    case Writing(call, _, _) => CallOk(registries, call)
    case _ => true
  }

  ghost predicate CallsOk(registries: set<string>, actions: seq<Action>) {
    forall a :: a in actions && a.Begin? ==> CallOk(registries, a.call)
  }

  ghost predicate WritesOk(registries: set<string>, s: State) {
    && (forall i :: 0 <= i < |s.log| ==> WriteOk(registries, s.log[i].write))
    && forall c :: 0 <= c < |s.clients| ==> PcKnows(registries, s.clients[c].pc)
  }

  lemma StepKeepsWritesOk(registries: set<string>, s: State, c: nat)
    requires WritesOk(registries, s) && c < |s.clients|
    ensures WritesOk(registries, Step(s, c))
  {
    assert PcKnows(registries, s.clients[c].pc);
  }

  lemma NextKeepsWritesOk(registries: set<string>, s: State, a: Action)
    requires WritesOk(registries, s) && (a.Begin? ==> CallOk(registries, a.call))
    ensures WritesOk(registries, Next(s, a))
  {
    if a.client < |s.clients| && a.Act? { StepKeepsWritesOk(registries, s, a.client); }
  }

  lemma {:induction false} RunKeepsWritesOk(registries: set<string>, s: State, actions: seq<Action>)
    requires WritesOk(registries, s) && CallsOk(registries, actions)
    ensures WritesOk(registries, Run(s, actions))
  {
    if actions != [] {
      var n := |actions| - 1;
      RunKeepsWritesOk(registries, s, actions[..n]);
      NextKeepsWritesOk(registries, Run(s, actions[..n]), actions[n]);
    }
  }

  lemma AppliedKeepsShape(registries: set<string>, t: seq<Route>, w: Write)
    requires WriteOk(registries, w) && forall x :: x in t ==> RegistryShape(registries, x)
    ensures forall x :: x in Applied(t, w) ==> RegistryShape(registries, x)
  {
    forall x | x in Applied(t, w) ensures RegistryShape(registries, x) {
      match w
      case Put(r) => UpsertContents(t, r, x);
      case Drop(id) => WithoutMembers(t, id, x);
      case Replace(r) => var i :| 0 <= i < |t| && InPlace(t, r)[i] == x; assert t[i] in t;
    }
  }

  lemma {:induction false} FoldKeepsShape(registries: set<string>, t0: seq<Route>, log: seq<Entry>)
    requires forall i :: 0 <= i < |log| ==> WriteOk(registries, log[i].write)
    requires forall x :: x in t0 ==> RegistryShape(registries, x)
    ensures forall x :: x in Fold(t0, log) ==> RegistryShape(registries, x)
  {
    if log != [] {
      var n := |log| - 1;
      FoldKeepsShape(registries, t0, log[..n]);
      AppliedKeepsShape(registries, Fold(t0, log[..n]), log[n].write);
    }
  }

  /** A registry route patched in place has the path it had: none. */
  lemma RegistriesKeepPaths(registries: set<string>, t0: seq<Route>, log: seq<Entry>)
    requires forall i :: 0 <= i < |log| ==> WriteOk(registries, log[i].write)
    requires forall x :: x in t0 ==> RegistryShape(registries, x)
    ensures ReplacesKeepPaths(t0, log)
  {
    forall i | 0 <= i < |log| ensures KeepsPath(Fold(t0, log[..i]), log[i].write) {
      FoldKeepsShape(registries, t0, log[..i]);
      assert WriteOk(registries, log[i].write);
    }
  }

  /** In every reachable table the paths are in order, once the table was in order at the start
      or some upsert has gone through. */
  lemma EveryTableIsPathSorted(registries: set<string>, t0: seq<Route>, n: nat, actions: seq<Action>)
    requires CallsOk(registries, actions) && forall y :: y in t0 ==> RegistryShape(registries, y)
    requires OnceSorted(t0, Run(Init(t0, n), actions).log)
    ensures PathSorted(Run(Init(t0, n), actions).routes)
  {
    var s := Run(Init(t0, n), actions);
    TableIsFoldOfWrites(t0, n, actions);
    RunKeepsWritesOk(registries, Init(t0, n), actions);
    RegistriesKeepPaths(registries, t0, s.log);
    FoldIsPathSorted(t0, s.log);
  }

  /** At every moment of every run each request goes to a matching route with the longest path
      prefix, even with registry routes patched in place and even if the table was out of order
      at first, once any upsert has gone through. */
  lemma EveryTableRoutesByLongestPrefix(registries: set<string>, t0: seq<Route>, n: nat, actions: seq<Action>,
                                        req: Request, r: Route, x: Route)
    requires CallsOk(registries, actions) && forall y :: y in t0 ==> RegistryShape(registries, y)
    requires OnceSorted(t0, Run(Init(t0, n), actions).log)
    requires var t := Run(Init(t0, n), actions).routes;
             FirstMatch(t, req) == Some(r) && x in t && Matches(x, req) && x.on.On?
    ensures r.on.On? && PrefixLength(x) <= PrefixLength(r)
  {
    EveryTableIsPathSorted(registries, t0, n, actions);
    FirstMatchIsLongestPrefix(Run(Init(t0, n), actions).routes, req, r, x);
  }

  // ---------------------------------------------------------------- patching in place

  /** Patching a route in place keeps a sorted table sorted exactly when the new key still fits
      between the routes before and those behind. */
  lemma InPlaceSortedIff(t: seq<Route>, r: Route, i: nat)
    requires Sorted(t) && UniqueIds(t) && i < |t| && t[i].id == r.id
    ensures Sorted(InPlace(t, r)) <==>
            && (forall j :: 0 <= j < i ==> KeyLe(KeyOf(t[j]), KeyOf(r)))
            && (forall j :: i < j < |t| ==> KeyLe(KeyOf(r), KeyOf(t[j])))
  {
    var u := InPlace(t, r);
    forall j | 0 <= j < |t| ensures u[j] == if j == i then r else t[j] {
      assert j < i ==> t[j].id != t[i].id;
      assert i < j ==> t[i].id != t[j].id;
    }
    SortedWithOneIff(t, u, r, i);
  }

  lemma SortedWithOneIff(t: seq<Route>, u: seq<Route>, r: Route, i: nat)
    requires Sorted(t) && |u| == |t| && i < |t| && forall j :: 0 <= j < |t| ==> u[j] == if j == i then r else t[j]
    ensures Sorted(u) <==>
            && (forall j :: 0 <= j < i ==> KeyLe(KeyOf(t[j]), KeyOf(r)))
            && (forall j :: i < j < |t| ==> KeyLe(KeyOf(r), KeyOf(t[j])))
  {
    if Sorted(u) {
      forall j | 0 <= j < i ensures KeyLe(KeyOf(t[j]), KeyOf(r)) { assert KeyLe(KeyOf(u[j]), KeyOf(u[i])); }
      forall j | i < j < |t| ensures KeyLe(KeyOf(r), KeyOf(t[j])) { assert KeyLe(KeyOf(u[i]), KeyOf(u[j])); }
    }
  }

  /** So a registry whose domain moves past the next one's leaves the table out of order, because
      that branch never sorts again. */
  lemma InPlaceCanUnsort()
    ensures var t := [Route("r1", On("", "a.io"), ""), Route("r2", On("", "b.io"), "")];
            Sorted(t) && UniqueIds(t) && !Sorted(InPlace(t, Route("r1", On("", "c.io"), "")))
  {
    var a, b, c := Route("r1", On("", "a.io"), ""), Route("r2", On("", "b.io"), ""), Route("r1", On("", "c.io"), "");
    assert !KeyLe(KeyOf(c), KeyOf(b)) && KeyLe(KeyOf(a), KeyOf(b));
    InPlaceSortedIff([a, b], c, 0);
  }
}
