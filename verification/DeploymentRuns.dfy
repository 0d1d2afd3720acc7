/** What holds over whole histories of a stack: repeated deployments, redeploys of an earlier
    snapshot, and any run of requests and deployments. */
module DeploymentRuns {
  import opened Text
  import opened Values
  import opened Overrides
  import opened Redeploy
  import opened EnvCompile
  import opened Configs
  import opened Deployments

  // ---------------------------------------------------------------- nothing left to generate

  lemma CompleteExposesNothing(envs: seq<EnvVar>, overrides: map<string, Value>, gen: string -> Value,
                               shared: map<string, Value>)
    requires Complete(envs, overrides)
    ensures NewEntries(envs, overrides, gen, shared) == []
  {
    NothingExposed(Specs(envs, overrides, gen, shared));
  }

  lemma {:induction false} CompleteIgnoresGenerators(envs: seq<EnvVar>, overrides: map<string, Value>,
                                                     gen: string -> Value, gen': string -> Value)
    requires Complete(envs, overrides)
    ensures Environ(envs, overrides, gen) == Environ(envs, overrides, gen')
  {
    if envs != [] {
      var n := |envs| - 1;
      assert forall i :: 0 <= i < n ==> envs[..n][i] == envs[i];
      CompleteIgnoresGenerators(envs[..n], overrides, gen, gen');
      assert Raw(envs[n], overrides, gen) == Raw(envs[n], overrides, gen');
    }
  }

  lemma CompleteSettles(envs: seq<EnvVar>, overrides: map<string, Value>, gen: string -> Value, gen': string -> Value,
                        shared: map<string, Value>)
    requires Complete(envs, overrides)
    ensures Specs(envs, overrides, gen, shared) == Specs(envs, overrides, gen', shared)
  {
    CompleteIgnoresGenerators(envs, overrides, gen, gen');
    forall i | 0 <= i < |envs|
      ensures Settled(envs[i], envs, overrides, gen, shared) == Settled(envs[i], envs, overrides, gen', shared)
    {
      assert Raw(envs[i], overrides, gen) == Raw(envs[i], overrides, gen');
    }
  }

  /** After a deployment every name the section generates or exposes has its override. */
  lemma StoredAfterIsComplete(after: map<string, Value>, envs: seq<EnvVar>, overrides: map<string, Value>,
                              gen: string -> Value, shared: map<string, Value>)
    requires StoredAfter(after, envs, overrides, gen, shared)
    ensures Complete(envs, after)
  {
    forall i | 0 <= i < |envs| && (IsTemplate(envs[i].value) || "__" <= envs[i].key) ensures envs[i].key in after {
      assert envs[i].key in overrides || Raw(envs[i], overrides, gen).exposed;
    }
  }

  lemma AdvanceTwice(stored: map<string, Versioned>, contents: map<string, Value>)
    ensures Advance(Advance(stored, contents), contents) == Advance(stored, contents)
  {}

  // ---------------------------------------------------------------- deploying again

  /** A state no request has touched since a deployment settled it. */
  ghost predicate Settles(s: StackState) {
    ValidState(s) && s.pending == [] && Complete(s.content.envs, OverrideMap(s.table.rows))
  }

  /** Deploying a settled state again keeps every row and the content, whatever the generators
      would return; only config versions may move. */
  lemma DeployingAgain(s: StackState, gen: string -> Value, shared: map<string, Value>)
    requires Settles(s)
    ensures Deployed(s, gen, shared)
         == Some(s.(configs := NewConfigs(s.configs, s.content, OverrideMap(s.table.rows), gen, shared)))
  {
    CompleteExposesNothing(s.content.envs, OverrideMap(s.table.rows), gen, shared);
    assert EnvChanges(s.pending) == [];
  }

  /** Configs that already are what this compile makes of them stay. */
  lemma DeployingAgainKeeps(s: StackState, gen: string -> Value, shared: map<string, Value>)
    requires Settles(s) && NewConfigs(s.configs, s.content, OverrideMap(s.table.rows), gen, shared) == s.configs
    ensures Deployed(s, gen, shared) == Some(s)
  {
    DeployingAgain(s, gen, shared);
  }

  lemma ConfigsSettle(stored: map<string, Versioned>, content: Content, overrides: map<string, Value>,
                      gen: string -> Value, gen': string -> Value, shared: map<string, Value>)
    requires Complete(content.envs, overrides)
    ensures var configs := NewConfigs(stored, content, overrides, gen, shared);
            NewConfigs(configs, content, overrides, gen', shared) == configs
  {
    CompleteSettles(content.envs, overrides, gen, gen', shared);
    AdvanceTwice(stored, NewContents(content, overrides, gen, shared));
  }

  /** From the second deployment on, deploying with no changes requested is a no-op: same rows,
      same content, same config versions. */
  lemma ThirdDeployChangesNothing(s: StackState, d: StackState, gen: string -> Value, gen': string -> Value,
                                  shared: map<string, Value>)
    requires Settles(s) && Deployed(s, gen, shared) == Some(d)
    ensures Settles(d) && Deployed(d, gen', shared) == Some(d)
  {
    DeployingAgain(s, gen, shared);
    ConfigsSettle(s.configs, s.content, OverrideMap(s.table.rows), gen, gen', shared);
    DeployingAgainKeeps(d, gen', shared);
  }

  lemma DeployedSettles(s: StackState, gen: string -> Value, shared: map<string, Value>)
    requires ValidState(s) && WellFormed(s.table, EnvChanges(s.pending)) && Deployed(s, gen, shared).Some?
    ensures Settles(Deployed(s, gen, shared).value)
  {
    DeployStoresWhatItGenerates(s, gen, shared);
    var u, d := ApplyAll(s.table, EnvChanges(s.pending)).value, Deployed(s, gen, shared).value;
    StoredAfterIsComplete(OverrideMap(d.table.rows), d.content.envs, OverrideMap(u.rows), gen, shared);
  }

  lemma {:induction false} SameValuesSameDict(a: seq<EnvSpec>, b: seq<EnvSpec>)
    requires |a| == |b| && forall i :: 0 <= i < |a| ==> a[i].key == b[i].key && a[i].value == b[i].value
    ensures Dict(a) == Dict(b)
  {
    if a != [] {
      var n := |a| - 1;
      SameValuesSameDict(a[..n], b[..n]);
    }
  }

  lemma FixedConfigsStay(stored: map<string, Versioned>, content: Content, o: map<string, Value>, p: map<string, Value>,
                         gen: string -> Value, gen': string -> Value, shared: map<string, Value>)
    requires DistinctNames(content.envs) && StoredAfter(p, content.envs, o, gen, shared)
    requires ExposedAreFixed(content.envs, o, gen, shared)
    ensures var configs := NewConfigs(stored, content, o, gen, shared);
            NewConfigs(configs, content, p, gen', shared) == configs
  {
    var envs := content.envs;
    var a, b := Specs(envs, o, gen, shared), Specs(envs, p, gen', shared);
    forall i | 0 <= i < |envs| ensures a[i].key == b[i].key && a[i].value == b[i].value {
      RecompileIsStable(envs, o, gen, shared, p, gen', i);
    }
    SameValuesSameDict(a, b);
    AdvanceTwice(stored, NewContents(content, o, gen, shared));
  }

  /** If every exposed value was unchanged by its own expansion, already the second deployment is
      a no-op. */
  lemma SecondDeployChangesNothing(s: StackState, u: Table, d: StackState, gen: string -> Value,
                                   gen': string -> Value, shared: map<string, Value>)
    requires ValidState(s) && WellFormed(s.table, EnvChanges(s.pending))
    requires ApplyAll(s.table, EnvChanges(s.pending)) == Some(u) && Deployed(s, gen, shared) == Some(d)
    requires UniqueKeys(u.rows) && ExposedAreFixed(d.content.envs, OverrideMap(u.rows), gen, shared)
    ensures Settles(d) && Deployed(d, gen', shared) == Some(d)
  {
    DeployedSettles(s, gen, shared);
    DeployStoresWhatItGenerates(s, gen, shared);
    FixedConfigsStay(s.configs, d.content, OverrideMap(u.rows), OverrideMap(d.table.rows), gen, gen', shared);
    DeployingAgainKeeps(d, gen', shared);
  }

  // ---------------------------------------------------------------- redeploying a snapshot

  function AsPending(cs: seq<Change>): seq<Pending> {
    seq(|cs|, i requires 0 <= i < |cs| => EnvChange(cs[i]))
  }

  /** The changes a redeploy adds before it deploys. */
  function RedeployChanges(s: StackState, current: seq<Dto>, content: Content, target: seq<Dto>): seq<Pending> {
    var edits := AsPending(Diff(current, target));
    if s.content != content then [ContentChange(content)] + edits else edits
  }

  lemma {:induction false} EnvChangesAsPending(cs: seq<Change>)
    ensures EnvChanges(AsPending(cs)) == cs
  {
    if cs != [] {
      var n := |cs| - 1;
      EnvChangesAsPending(cs[..n]);
      assert AsPending(cs)[..n] == AsPending(cs[..n]);
    }
  }

  lemma {:induction false} ContentInFront(content: Content, ps: seq<Pending>)
    ensures EnvChanges([ContentChange(content)] + ps) == EnvChanges(ps)
  {
    var qs := [ContentChange(content)] + ps;
    if ps == [] {
      assert qs[..0] == [];
    } else {
      var n := |ps| - 1;
      ContentInFront(content, ps[..n]);
      assert qs[..n + 1] == [ContentChange(content)] + ps[..n];
    }
  }

  lemma NoContentIn(ps: seq<Pending>)
    requires forall i :: 0 <= i < |ps| ==> ps[i].EnvChange?
    ensures FirstContent(ps) == |ps|
  {}

  lemma RedeployPending(s: StackState, current: seq<Dto>, content: Content, target: seq<Dto>)
    requires DistinctNames(content.envs)
    ensures var ps := RedeployChanges(s, current, content, target);
            && EnvChanges(ps) == Diff(current, target) && NewContent(ps, s.content) == content
            && OneContent(ps) && Sections(ps)
  {
    var edits := AsPending(Diff(current, target));
    EnvChangesAsPending(Diff(current, target));
    NoContentIn(edits);
    if s.content != content { ContentInFront(content, edits); }
  }

  /** Edits name rows of the current table, each at most once. */
  lemma {:induction false} EditNames(current: seq<Dto>, target: map<nat, Entry>, i: nat)
    requires i < |EditsFor(current, target)|
    ensures var e := EditsFor(current, target)[i];
            !e.Add? && exists j :: 0 <= j < |current| && current[j] == Dto(e.id, e.was)
  {
    var first := |EditsFor(current, target)| - |EditsFor(current[1..], target)|;
    if i >= first {
      EditNames(current[1..], target, i - first);
      var e := EditsFor(current, target)[i];
      assert e == EditsFor(current[1..], target)[i - first];
      var j :| 0 <= j < |current[1..]| && current[1..][j] == Dto(e.id, e.was);
      assert current[j + 1] == Dto(e.id, e.was);
    } else {
      assert current[0] == Dto(EditsFor(current, target)[i].id, EditsFor(current, target)[i].was);
    }
  }

  lemma {:induction false} EditsDistinct(current: seq<Dto>, target: map<nat, Entry>, i: nat, j: nat)
    requires DistinctIds(current) && i < j < |EditsFor(current, target)|
    ensures Target(EditsFor(current, target)[i]) != Target(EditsFor(current, target)[j])
  {
    var es, rest := EditsFor(current, target), EditsFor(current[1..], target);
    var first := |es| - |rest|;
    EditNames(current, target, i);
    EditNames(current, target, j);
    assert DistinctIds(current[1..]) by {
      forall a, b | 0 <= a < b < |current[1..]|
        ensures current[1..][a].id != current[1..][b].id
      {
        assert current[a + 1].id != current[b + 1].id;
      }
    }
    assert es[j] == rest[j - first];
    if i >= first {
      EditsDistinct(current[1..], target, i - first, j - first);
      assert es[i] == rest[i - first];
    } else {
      EditNames(current[1..], target, j - first);
      var b :| 0 <= b < |current[1..]| && current[1..][b] == Dto(es[j].id, es[j].was);
      assert current[b + 1].id != current[0].id;
    }
  }

  lemma {:induction false} AddsAre(es: seq<Entry>, i: nat)
    requires i < |Adds(es)|
    ensures Adds(es)[i].Add?
  {
    if i > 0 { AddsAre(es[1..], i - 1); }
  }

  /** The computed changes are such as the change serializer lets through. */
  lemma DiffIsWellFormed(t: Table, current: seq<Dto>, target: seq<Dto>)
    requires ValidTable(t) && Lists(current, t.rows)
    ensures WellFormed(t, Diff(current, target))
  {
    var edits, adds := EditsFor(current, ById(target)), Adds(Missing(target, ById(current)));
    var cs := Diff(current, target);
    forall i | 0 <= i < |cs| ensures TargetsIn(t.rows, cs[i]) {
      if i < |edits| {
        EditNames(current, ById(target), i);
        var j :| 0 <= j < |current| && current[j] == Dto(edits[i].id, edits[i].was);
        ListsEntry(current, t.rows, j);
      } else {
        AddsAre(Missing(target, ById(current)), i - |edits|);
      }
    }
    forall i, j | 0 <= i < j < |cs| && Target(cs[i]).Some? ensures Target(cs[i]) != Target(cs[j]) {
      if j < |edits| {
        EditsDistinct(current, ById(target), i, j);
      } else {
        AddsAre(Missing(target, ById(current)), j - |edits|);
      }
    }
  }

  lemma NothingAdded(u: Table, v: Table)
    requires UniqueKeys(u.rows) && Extended(u, [], v)
    ensures v.rows == u.rows
  {}

  /** A deployment with nothing left to generate leaves the changed table as it is. */
  lemma CompleteDeployAddsNothing(s: StackState, u: Table, d: StackState, gen: string -> Value,
                                  shared: map<string, Value>)
    requires ValidTable(u) && UniqueKeys(d.table.rows) && DeployedTo(s, u, d, gen, shared)
    requires Complete(d.content.envs, OverrideMap(u.rows))
    ensures d.table.rows == u.rows
  {
    CompleteExposesNothing(d.content.envs, OverrideMap(u.rows), gen, shared);
    NothingAdded(u, d.table);
  }

  lemma RestoringDeploy(r: StackState, content: Content, goal: map<nat, Entry>, gen: string -> Value,
                        shared: map<string, Value>)
    requires ValidState(r) && WellFormed(r.table, EnvChanges(r.pending)) && NewContent(r.pending, r.content) == content
    requires UniqueKeys(goal) && Complete(content.envs, OverrideMap(goal))
    requires var u := ApplyAll(r.table, EnvChanges(r.pending));
             u.Some? ==> UniqueKeys(u.value.rows) && OverrideMap(u.value.rows) == OverrideMap(goal)
    ensures var d := Deployed(r, gen, shared);
            && (d.Some? <==> ApplyAll(r.table, EnvChanges(r.pending)).Some?)
            && (d.Some? ==>
                  && Settles(d.value) && d.value.content == content
                  && OverrideMap(d.value.table.rows) == OverrideMap(goal)
                  && d.value.configs == NewConfigs(r.configs, content, OverrideMap(goal), gen, shared))
  {
    DeployStoresWhatItGenerates(r, gen, shared);
    if Deployed(r, gen, shared).Some? {
      DeployedSettles(r, gen, shared);
      var u := ApplyAll(r.table, EnvChanges(r.pending)).value;
      CompleteDeployAddsNothing(r, u, Deployed(r, gen, shared).value, gen, shared);
    }
  }

  /** What the stack is once the redeploy's changes are requested. */
  lemma RedeployRequest(s: StackState, current: seq<Dto>, content: Content, target: seq<Dto>) returns (r: StackState)
    requires ValidState(s) && s.pending == [] && Lists(current, s.table.rows) && DistinctNames(content.envs)
    ensures r == s.(pending := RedeployChanges(s, current, content, target))
    ensures ValidState(r) && EnvChanges(r.pending) == Diff(current, target)
            && NewContent(r.pending, r.content) == content
    ensures WellFormed(r.table, Diff(current, target))
  {
    r := s.(pending := RedeployChanges(s, current, content, target));
    RedeployPending(s, current, content, target);
    DiffIsWellFormed(s.table, current, target);
  }

  /** Redeploying a snapshot with no changes pending brings back exactly that snapshot: its
      content, its keys and its values, with nothing generated anew. It works exactly when no
      row that keeps its id takes a key a later current row still has. */
  lemma RedeployRestoresSnapshot(s: StackState, current: seq<Dto>, content: Content, target: seq<Dto>,
                                 gen: string -> Value, shared: map<string, Value>)
    requires ValidState(s) && s.pending == [] && Lists(current, s.table.rows)
    requires DistinctIds(target) && UniqueKeys(ById(target)) && DistinctNames(content.envs)
    requires Complete(content.envs, OverrideMap(ById(target)))
    ensures var d := Deployed(s.(pending := RedeployChanges(s, current, content, target)), gen, shared);
            && (d.Some? <==> NoKeyTakenEarly(current, ById(target)))
            && (d.Some? ==>
                  && Settles(d.value) && d.value.content == content
                  && OverrideMap(d.value.table.rows) == OverrideMap(ById(target))
                  && d.value.configs == NewConfigs(s.configs, content, OverrideMap(ById(target)), gen, shared))
  {
    var r := RedeployRequest(s, current, content, target);
    EditedTable(s.table, current, target);
    RestoringDeploy(r, content, ById(target), gen, shared);
  }

  lemma EditedTable(t: Table, current: seq<Dto>, target: seq<Dto>)
    requires ValidTable(t) && Lists(current, t.rows) && DistinctIds(target) && UniqueKeys(ById(target))
    ensures var u := ApplyAll(t, Diff(current, target));
            && (u.Some? <==> NoKeyTakenEarly(current, ById(target)))
            && (u.Some? ==> UniqueKeys(u.value.rows) && OverrideMap(u.value.rows) == OverrideMap(ById(target)))
  {
    RedeployRestoresIff(t.rows, t.next, current, target);
    assert t == Table(t.rows, t.next);
  }

  // ---------------------------------------------------------------- any run

  /** Requests of changes, and deployments, in any order. A deployment that fails changes nothing. */
  datatype Action = Request(change: Pending) | Deploy(gen: string -> Value, shared: map<string, Value>)

  ghost predicate ValidAction(a: Action) {
    a.Request? && a.change.ContentChange? ==> DistinctNames(a.change.content.envs)
  }

  ghost function Step(s: StackState, a: Action): StackState
    requires ValidState(s)
  {
    match a
    case Request(p) => s.(pending := Requested(s.pending, p))
    case Deploy(gen, shared) => match Deployed(s, gen, shared) case None => s case Some(d) => d
  }

  lemma StepKeepsValid(s: StackState, a: Action)
    requires ValidState(s) && ValidAction(a)
    ensures ValidState(Step(s, a))
  {
    match a
    case Request(p) =>
      RequestedIs(s.pending, p, s.content);
    case Deploy(gen, shared) =>
      if Deployed(s, gen, shared).Some? { DeployedKeepsValid(s, gen, shared); }
  }

  /** A deployment leaves a valid state, even if two content changes were waiting. */
  lemma DeployedKeepsValid(s: StackState, gen: string -> Value, shared: map<string, Value>)
    requires ValidTable(s.table) && DistinctNames(s.content.envs) && Sections(s.pending)
             && Deployed(s, gen, shared).Some?
    ensures ValidState(Deployed(s, gen, shared).value)
  {
    var cs := EnvChanges(s.pending);
    var u := ApplyAll(s.table, cs).value;
    ApplyAllKeepsUnique(s.table, cs);
    var content := NewContent(s.pending, s.content);
    ApplyAllKeepsUnique(u, Adds(NewEntries(content.envs, Seen(u, cs), gen, shared)));
  }

  /** The state after a run. */
  ghost function After(s: StackState, run: seq<Action>): (d: StackState)
    requires ValidState(s) && forall i :: 0 <= i < |run| ==> ValidAction(run[i])
    ensures ValidState(d)
    decreases |run|
  {
    if run == [] then s
    else
      var before := After(s, run[..|run| - 1]);
      StepKeepsValid(before, run[|run| - 1]);
      Step(before, run[|run| - 1])
  }

  ghost predicate Touches(a: Action, id: nat) {
    a.Request? && a.change.EnvChange? && Target(a.change.change) == Some(id)
  }

  lemma NewRowsNameNothing(es: seq<Entry>, id: nat)
    ensures !Names(Adds(es), id)
  {
    forall i | 0 <= i < |Adds(es)| ensures Target(Adds(es)[i]) != Some(id) { AddsAre(es, i); }
  }

  lemma DeployKeepsRow(s: StackState, gen: string -> Value, shared: map<string, Value>, id: nat)
    requires ValidState(s) && Deployed(s, gen, shared).Some? && id in s.table.rows && !Names(EnvChanges(s.pending), id)
    ensures var d := Deployed(s, gen, shared).value; id in d.table.rows && d.table.rows[id] == s.table.rows[id]
  {
    var cs := EnvChanges(s.pending);
    var u := ApplyAll(s.table, cs).value;
    UnnamedStays(s.table, cs, id);
    ApplyAllKeepsUnique(s.table, cs);
    var es := NewEntries(NewContent(s.pending, s.content).envs, Seen(u, cs), gen, shared);
    NewRowsNameNothing(es, id);
    UnnamedStays(u, Adds(es), id);
  }

  lemma RequestNamesNothing(ps: seq<Pending>, p: Pending, content: Content, id: nat)
    requires OneContent(ps) && !Names(EnvChanges(ps), id) && !(p.EnvChange? && Target(p.change) == Some(id))
    ensures !Names(EnvChanges(Requested(ps, p)), id)
  {
    RequestedIs(ps, p, content);
    var cs, ds := EnvChanges(ps), EnvChanges(Requested(ps, p));
    forall i | 0 <= i < |ds| ensures Target(ds[i]) != Some(id) {
      if i < |cs| { assert ds[i] == cs[i]; }
    }
  }

  lemma StepKeepsRow(s: StackState, a: Action, id: nat)
    requires ValidState(s) && ValidAction(a) && id in s.table.rows && !Names(EnvChanges(s.pending), id)
             && !Touches(a, id)
    ensures var d := Step(s, a);
            id in d.table.rows && d.table.rows[id] == s.table.rows[id] && !Names(EnvChanges(d.pending), id)
  {
    match a
    case Request(p) => RequestNamesNothing(s.pending, p, s.content, id);
    case Deploy(gen, shared) => if Deployed(s, gen, shared).Some? { DeployKeepsRow(s, gen, shared, id); }
  }

  lemma {:induction false} RowIsSticky(s: StackState, run: seq<Action>, id: nat)
    requires ValidState(s) && forall i :: 0 <= i < |run| ==> ValidAction(run[i])
    requires id in s.table.rows && !Names(EnvChanges(s.pending), id)
    requires forall i :: 0 <= i < |run| ==> !Touches(run[i], id)
    ensures var d := After(s, run);
            id in d.table.rows && d.table.rows[id] == s.table.rows[id] && !Names(EnvChanges(d.pending), id)
    decreases |run|
  {
    if run != [] {
      var n := |run| - 1;
      RowIsSticky(s, run[..n], id);
      StepKeepsRow(After(s, run[..n]), run[n], id);
    }
  }

  /** The row a deployment stores for a value it generated or exposed. */
  lemma GeneratedValueIsStored(s: StackState, u: Table, d: StackState, gen: string -> Value,
                               shared: map<string, Value>, i: nat) returns (id: nat)
    requires ValidState(s) && WellFormed(s.table, EnvChanges(s.pending))
    requires ApplyAll(s.table, EnvChanges(s.pending)) == Some(u) && Deployed(s, gen, shared) == Some(d)
    requires UniqueKeys(u.rows) && i < |d.content.envs| && Raw(d.content.envs[i], OverrideMap(u.rows), gen).exposed
    ensures id in d.table.rows && !Names(EnvChanges(d.pending), id)
    ensures var e := Settled(d.content.envs[i], d.content.envs, OverrideMap(u.rows), gen, shared);
            d.table.rows[id] == Entry(d.content.envs[i].key, e.value)
  {
    DeployStoresWhatItGenerates(s, gen, shared);
    IsNewEntry(d.content.envs, OverrideMap(u.rows), gen, shared, i);
    var value := Settled(d.content.envs[i], d.content.envs, OverrideMap(u.rows), gen, shared).value;
    var e := Entry(d.content.envs[i].key, value);
    assert HasEntry(d.table.rows, e);
    id :| id in d.table.rows && d.table.rows[id] == e;
  }

  // ---------------------------------------------------------------- checked runs

  /** What the serializers demand of a request: the change names a row of the table with its
      current value, and no pending change names that row yet. */
  ghost predicate Checked(s: StackState, a: Action) {
    a.Request? && a.change.EnvChange? ==>
      var c := a.change.change;
      TargetsIn(s.table.rows, c) && (Target(c).Some? ==> !Names(EnvChanges(s.pending), Target(c).value))
  }

  /** Each request was checked in the state it was made in. */
  ghost predicate CheckedRun(s: StackState, run: seq<Action>)
    requires ValidState(s)
    decreases |run|
  {
    run == [] ||
    var n := |run| - 1;
    && CheckedRun(s, run[..n]) && (forall i :: 0 <= i < |run| ==> ValidAction(run[i]))
    && Checked(After(s, run[..n]), run[n])
  }

  lemma OneMoreIsWellFormed(t: Table, cs: seq<Change>, c: Change)
    requires WellFormed(t, cs) && TargetsIn(t.rows, c) && (Target(c).Some? ==> !Names(cs, Target(c).value))
    ensures WellFormed(t, cs + [c])
  {
    var ds := cs + [c];
    forall i | 0 <= i < |ds| ensures TargetsIn(t.rows, ds[i]) {}
    forall i, j | 0 <= i < j < |ds| && Target(ds[i]).Some? ensures Target(ds[i]) != Target(ds[j]) {
      assert ds[i] == cs[i];
      if j < |cs| { assert ds[j] == cs[j]; }
    }
  }

  /** The pending changes of a stack are such as the serializers let through. */
  ghost predicate Sound(s: StackState) {
    ValidState(s) && WellFormed(s.table, EnvChanges(s.pending))
  }

  lemma StepKeepsSound(s: StackState, a: Action)
    requires Sound(s) && ValidAction(a) && Checked(s, a)
    ensures Sound(Step(s, a))
  {
    StepKeepsValid(s, a);
    match a
    case Request(p) =>
      RequestedIs(s.pending, p, s.content);
      if p.EnvChange? { OneMoreIsWellFormed(s.table, EnvChanges(s.pending), p.change); }
    case Deploy(gen, shared) =>
      if Deployed(s, gen, shared).Some? { assert EnvChanges(Deployed(s, gen, shared).value.pending) == []; }
  }

  /** In every run of checked requests and of deployments, the pending changes stay such as the
      serializers let through: each names a row with its current value, none is named twice. */
  lemma {:induction false} CheckedRunsStaySound(s: StackState, run: seq<Action>)
    requires Sound(s) && CheckedRun(s, run)
    ensures (forall i :: 0 <= i < |run| ==> ValidAction(run[i])) && Sound(After(s, run))
    decreases |run|
  {
    if run != [] {
      var n := |run| - 1;
      CheckedRunsStaySound(s, run[..n]);
      StepKeepsSound(After(s, run[..n]), run[n]);
    }
  }

  /** Generated values never collide: at any moment of a checked run a deployment fails only if
      the pending changes themselves break the key constraint, and it leaves nothing to generate. */
  lemma GeneratedNeverCollide(s: StackState, run: seq<Action>, gen: string -> Value, shared: map<string, Value>)
    requires Sound(s) && CheckedRun(s, run)
    ensures forall i :: 0 <= i < |run| ==> ValidAction(run[i])
    ensures var now := After(s, run);
            && (Deployed(now, gen, shared).Some? <==> ApplyAll(now.table, EnvChanges(now.pending)).Some?)
            && (Deployed(now, gen, shared).Some? ==> Settles(Deployed(now, gen, shared).value))
  {
    CheckedRunsStaySound(s, run);
    var now := After(s, run);
    DeployStoresWhatItGenerates(now, gen, shared);
    if Deployed(now, gen, shared).Some? { DeployedSettles(now, gen, shared); }
  }

  /** The compile of a deployment whose changes leave row `id` alone uses the row's value. */
  lemma CompileUsesRow(s: StackState, u: Table, id: nat, v: EnvVar, gen: string -> Value)
    requires Sound(s) && ApplyAll(s.table, EnvChanges(s.pending)) == Some(u)
    requires id in s.table.rows && !Names(EnvChanges(s.pending), id) && v.key == s.table.rows[id].key
    ensures UniqueKeys(u.rows)
    ensures Raw(v, Seen(u, EnvChanges(s.pending)), gen) == EnvSpec(v.key, s.table.rows[id].value, false)
  {
    ReplayIsNoOp(s.table, EnvChanges(s.pending));
    UnnamedStays(s.table, EnvChanges(s.pending), id);
    OverrideMapIs(u.rows, v.key);
  }

  /** Once stored, a value is what every later compile uses for its name: at any deployment
      after any run of checked requests and of deployments, successful or not, none of which
      edits its row. */
  lemma StoredValueIsSticky(s: StackState, run: seq<Action>, id: nat, v: EnvVar, gen: string -> Value)
    requires Sound(s) && CheckedRun(s, run)
    requires id in s.table.rows && !Names(EnvChanges(s.pending), id)
    requires forall i :: 0 <= i < |run| ==> !Touches(run[i], id)
    requires v.key == s.table.rows[id].key
    ensures forall i :: 0 <= i < |run| ==> ValidAction(run[i])
    ensures var now := After(s, run);
            var u := ApplyAll(now.table, EnvChanges(now.pending));
            u.Some? ==> UniqueKeys(u.value.rows)
                        && var raw := Raw(v, Seen(u.value, EnvChanges(now.pending)), gen);
                           raw == EnvSpec(v.key, s.table.rows[id].value, false)
  {
    CheckedRunsStaySound(s, run);
    RowIsSticky(s, run, id);
    var now := After(s, run);
    var u := ApplyAll(now.table, EnvChanges(now.pending));
    if u.Some? { CompileUsesRow(now, u.value, id, v, gen); }
  }

  // ---------------------------------------------------------------- config versions over a run

  /** The expanded inline configs of a compile against table `u`. */
  function ContentsOf(s: StackState, u: Table, gen: string -> Value, shared: map<string, Value>): map<string, Value>
    requires UniqueKeys(u.rows)
  {
    NewContents(NewContent(s.pending, s.content), Seen(u, EnvChanges(s.pending)), gen, shared)
  }

  lemma CompileSucceeded(s: StackState, u: Table, gen: string -> Value, shared: map<string, Value>) returns (v: Table)
    requires UniqueKeys(u.rows) && Compiled(s, u, gen, shared).Some?
    ensures var overrides := Seen(u, EnvChanges(s.pending));
            ApplyAll(u, Adds(NewEntries(NewContent(s.pending, s.content).envs, overrides, gen, shared))) == Some(v)
  {
    var content, overrides := NewContent(s.pending, s.content), Seen(u, EnvChanges(s.pending));
    v := ApplyAll(u, Adds(NewEntries(content.envs, overrides, gen, shared))).value;
  }

  lemma CompiledConfigs(s: StackState, u: Table, gen: string -> Value, shared: map<string, Value>)
    requires UniqueKeys(u.rows) && Compiled(s, u, gen, shared).Some?
    ensures Compiled(s, u, gen, shared).value.configs == Advance(s.configs, ContentsOf(s, u, gen, shared))
  {
    var v := CompileSucceeded(s, u, gen, shared);
    CompiledIs(s, u, v, gen, shared);
  }

  /** The expanded inline configs of a deployment. */
  ghost function InlineContents(s: StackState, gen: string -> Value, shared: map<string, Value>): map<string, Value>
    requires ValidState(s) && Deployed(s, gen, shared).Some?
  {
    var u := ApplyAll(s.table, EnvChanges(s.pending)).value;
    ApplyAllKeepsUnique(s.table, EnvChanges(s.pending));
    ContentsOf(s, u, gen, shared)
  }

  lemma DeployedConfigs(s: StackState, gen: string -> Value, shared: map<string, Value>)
    requires ValidState(s) && Deployed(s, gen, shared).Some?
    ensures Deployed(s, gen, shared).value.configs == Advance(s.configs, InlineContents(s, gen, shared))
  {
    var u := ApplyAll(s.table, EnvChanges(s.pending)).value;
    ApplyAllKeepsUnique(s.table, EnvChanges(s.pending));
    assert Deployed(s, gen, shared) == Compiled(s, u, gen, shared);
    CompiledConfigs(s, u, gen, shared);
  }

  /** What an action deployed: one map of contents, or nothing. */
  ghost function Made(s: StackState, a: Action): seq<map<string, Value>>
    requires ValidState(s)
  {
    if a.Deploy? && Deployed(s, a.gen, a.shared).Some? then [InlineContents(s, a.gen, a.shared)] else []
  }

  lemma StepConfigs(s: StackState, a: Action, past: seq<map<string, Value>>)
    requires ValidState(s) && s.configs == Stored(past)
    ensures Step(s, a).configs == Stored(past + Made(s, a))
  {
    if a.Deploy? && Deployed(s, a.gen, a.shared).Some? {
      StoredSnoc(past, InlineContents(s, a.gen, a.shared));
      DeployedConfigs(s, a.gen, a.shared);
    } else {
      assert past + [] == past;
    }
  }

  /** What the successful deployments of a run deployed, in order. */
  ghost function History(s: StackState, run: seq<Action>): seq<map<string, Value>>
    requires ValidState(s) && forall i :: 0 <= i < |run| ==> ValidAction(run[i])
    decreases |run|
  {
    if run == [] then [] else History(s, run[..|run| - 1]) + Made(After(s, run[..|run| - 1]), run[|run| - 1])
  }

  /** The versions a stack has stored are those of its deployments, one after the other, so what
      holds of versions over such a sequence holds over every run of the stack. */
  lemma {:induction false} VersionsFollowDeployments(s: StackState, run: seq<Action>, past: seq<map<string, Value>>)
    requires ValidState(s) && (forall i :: 0 <= i < |run| ==> ValidAction(run[i])) && s.configs == Stored(past)
    ensures After(s, run).configs == Stored(past + History(s, run))
    decreases |run|
  {
    if run == [] {
      assert past + [] == past;
    } else {
      var n := |run| - 1;
      VersionsFollowDeployments(s, run[..n], past);
      VersionsFollowOne(After(s, run[..n]), run[n], past, History(s, run[..n]));
      LastAction(s, run);
    }
  }

  lemma VersionsFollowOne(before: StackState, a: Action, past: seq<map<string, Value>>,
                          history: seq<map<string, Value>>)
    requires ValidState(before) && before.configs == Stored(past + history)
    ensures Step(before, a).configs == Stored(past + (history + Made(before, a)))
  {
    StepConfigs(before, a, past + history);
    assert past + history + Made(before, a) == past + (history + Made(before, a));
  }

  lemma LastAction(s: StackState, run: seq<Action>)
    requires ValidState(s) && run != [] && forall i :: 0 <= i < |run| ==> ValidAction(run[i])
    ensures var before, a := After(s, run[..|run| - 1]), run[|run| - 1];
            After(s, run) == Step(before, a) && History(s, run) == History(s, run[..|run| - 1]) + Made(before, a)
  {}

  lemma StoredSnoc(deploys: seq<map<string, Value>>, contents: map<string, Value>)
    ensures Stored(deploys + [contents]) == Advance(Stored(deploys), contents)
  {
    assert (deploys + [contents])[..|deploys|] == deploys;
  }

  // ---------------------------------------------------------------- going back

  /** Whatever was requested and deployed since, redeploying a deployment whose snapshot is the
      state it left brings the stack's content, keys and values back to that state. */
  lemma RedeployGoesBack(d: StackState, run: seq<Action>, current: seq<Dto>, snapshot: seq<Dto>, gen: string -> Value,
                         shared: map<string, Value>)
    requires Settles(d) && Lists(snapshot, d.table.rows) && forall i :: 0 <= i < |run| ==> ValidAction(run[i])
    requires After(d, run).pending == [] && Lists(current, After(d, run).table.rows)
    requires NoKeyTakenEarly(current, d.table.rows)
    ensures var s := After(d, run);
            var back := Deployed(s.(pending := RedeployChanges(s, current, d.content, snapshot)), gen, shared);
            back.Some? && Settles(back.value) && back.value.content == d.content
            && OverrideMap(back.value.table.rows) == OverrideMap(d.table.rows)
  {
    RedeployRestoresSnapshot(After(d, run), current, d.content, snapshot, gen, shared);
  }
}
