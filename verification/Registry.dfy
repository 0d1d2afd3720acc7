/** What `upsert_registry_url` does when nobody disturbs it, and what its retries are worth
    (backend/temporal/proxy.py). */
module Registry {
  import opened Text
  import opened RouteTable
  import opened ProxyServer

  predicate Ready(s: State, c: nat) {
    c < |s.clients| && (s.clients[c].pc.Idle? || s.clients[c].pc.Returned? || s.clients[c].pc.Raised?)
  }

  lemma RunOne(s: State, a: Action)
    ensures Run(s, [a]) == Next(s, a)
  {
    assert [a][..0] == [] && Run(s, []) == s;
  }

  lemma RunSnoc(s: State, actions: seq<Action>, a: Action)
    ensures Run(s, actions + [a]) == Next(Run(s, actions), a)
  {
    assert (actions + [a])[..|actions|] == actions;
  }

  function Probed(c: nat, r: Route): seq<Action> {
    [Begin(c, UpsertRegistry(r))] + [Act(c)]
  }

  lemma ProbeLooksUp(s: State, c: nat, r: Route)
    requires Ready(s, c)
    ensures var t, found := Run(s, Probed(c, r)), Lookup(s.routes, r.id);
            && t.routes == s.routes && t.log == s.log && |t.clients| == |s.clients|
            && t.clients[c].pc == if found == [] then Reading(UpsertUrl(r), 0)
                                  else Writing(UpsertRegistry(r), 1, Digest(found))
  {
    RunOne(s, Begin(c, UpsertRegistry(r)));
    RunSnoc(s, [Begin(c, UpsertRegistry(r))], Act(c));
  }

  lemma PatchWrites(s: State, c: nat, r: Route)
    requires c < |s.clients| && Lookup(s.routes, r.id) != []
    requires s.clients[c].pc == Writing(UpsertRegistry(r), 1, Digest(Lookup(s.routes, r.id)))
    ensures var t := Next(s, Act(c));
            && t.routes == InPlace(s.routes, r) && t.log == s.log + [Entry(c, Replace(r))]
            && |t.clients| == |s.clients| && t.clients[c].pc == Returned
  {}

  /** A registry that has a route gets it replaced where it stands. */
  lemma KnownRegistryIsPatched(s: State, c: nat, r: Route)
    requires Ready(s, c) && Lookup(s.routes, r.id) != []
    ensures var t := Run(s, Probed(c, r) + [Act(c)]);
            && t.routes == InPlace(s.routes, r) && t.log == s.log + [Entry(c, Replace(r))]
            && |t.clients| == |s.clients| && t.clients[c].pc == Returned
  {
    ProbeLooksUp(s, c, r);
    RunSnoc(s, Probed(c, r), Act(c));
    PatchWrites(Run(s, Probed(c, r)), c, r);
  }

  lemma UpsertReads(s: State, c: nat, r: Route)
    requires c < |s.clients| && s.clients[c].pc == Reading(UpsertUrl(r), 0)
    ensures var t := Next(s, Act(c));
            && t.routes == s.routes && t.log == s.log && |t.clients| == |s.clients|
            && t.clients[c].pc == Writing(UpsertUrl(r), 1, Digest(s.routes))
  {}

  lemma UpsertWrites(s: State, c: nat, r: Route)
    requires c < |s.clients| && s.clients[c].pc == Writing(UpsertUrl(r), 1, Digest(s.routes))
    ensures var t := Next(s, Act(c));
            && t.routes == Upsert(s.routes, r) && t.log == s.log + [Entry(c, Put(r))]
            && |t.clients| == |s.clients| && t.clients[c].pc == Returned
  {}

  /** One that has none is upserted as any other route. */
  lemma NewRegistryIsUpserted(s: State, c: nat, r: Route)
    requires Ready(s, c) && Lookup(s.routes, r.id) == []
    ensures var t := Run(s, Probed(c, r) + [Act(c)] + [Act(c)]);
            && t.routes == Upsert(s.routes, r) && t.log == s.log + [Entry(c, Put(r))]
            && |t.clients| == |s.clients| && t.clients[c].pc == Returned
  {
    ProbeLooksUp(s, c, r);
    RunSnoc(s, Probed(c, r), Act(c));
    UpsertReads(Run(s, Probed(c, r)), c, r);
    RunSnoc(s, Probed(c, r) + [Act(c)], Act(c));
    UpsertWrites(Run(s, Probed(c, r) + [Act(c)]), c, r);
  }

  lemma StaleStep(s: State, c: nat, r: Route, n: nat, etag: Etag)
    requires c < |s.clients| && s.clients[c].pc == Writing(UpsertRegistry(r), n, etag)
    requires Lookup(s.routes, r.id) != [] && Lookup(s.routes, r.id) != etag.content
    ensures var t := Next(s, Act(c));
            && t.routes == s.routes && t.log == s.log && |t.clients| == |s.clients|
            && t.clients[c].pc == if n < MAX_ETAG_ATTEMPTS then Writing(UpsertRegistry(r), n + 1, etag)
                                  else Raised(UpsertRegistry(r))
  {}

  /** The etag is read once, before the loop: after one refusal the two retries are refused as well,
      even when nobody else writes any more. */
  lemma RetriesAreUseless(s: State, c: nat, r: Route, etag: Etag)
    requires c < |s.clients| && s.clients[c].pc == Writing(UpsertRegistry(r), 1, etag)
    requires Lookup(s.routes, r.id) != [] && Lookup(s.routes, r.id) != etag.content
    ensures var t := Run(s, [Act(c)] + [Act(c)] + [Act(c)]);
            && t.routes == s.routes && t.log == s.log
            && |t.clients| == |s.clients| && t.clients[c].pc == Raised(UpsertRegistry(r))
  {
    var a := Run(s, [Act(c)]);
    RunOne(s, Act(c));
    StaleStep(s, c, r, 1, etag);
    RunSnoc(s, [Act(c)], Act(c));
    StaleStep(a, c, r, 2, etag);
    RunSnoc(s, [Act(c)] + [Act(c)], Act(c));
    StaleStep(Run(s, [Act(c)] + [Act(c)]), c, r, 3, etag);
  }
}
