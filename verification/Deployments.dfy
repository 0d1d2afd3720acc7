/** Deploying a stack: pending changes are applied, the new content is compiled, and what the
    compile generated is stored (backend/compose/models.py). */
module Deployments {
  import opened Text
  import opened Values
  import opened Overrides
  import opened Redeploy
  import opened EnvCompile
  import opened Configs

  /** The parts of a compose file the deployment's state depends on. */
  datatype Content = Content(envs: seq<EnvVar>, configs: seq<Config>)

  datatype Pending = EnvChange(change: Change) | ContentChange(content: Content)

  datatype StackState = StackState(
    table: Table, content: Content, configs: map<string, Versioned>, pending: seq<Pending>)

  function EnvChanges(ps: seq<Pending>): seq<Change> {
    if ps == [] then []
    else
      var p := ps[|ps| - 1];
      if p.EnvChange? then EnvChanges(ps[..|ps| - 1]) + [p.change] else EnvChanges(ps[..|ps| - 1])
  }

  /** Where the first pending content change is; `|ps|` if there is none. */
  function FirstContent(ps: seq<Pending>): (n: nat)
    ensures n <= |ps| && (n < |ps| ==> ps[n].ContentChange?)
    ensures forall i :: 0 <= i < n ==> ps[i].EnvChange?
  {
    if ps == [] || ps[0].ContentChange? then 0 else 1 + FirstContent(ps[1..])
  }

  /** The content a deployment compiles: the pending one, else the one deployed now. */
  function NewContent(ps: seq<Pending>, content: Content): Content {
    var n := FirstContent(ps);
    if n < |ps| then ps[n].content else content
  }

  /** At most one content change is pending. */
  ghost predicate OneContent(ps: seq<Pending>) {
    forall i, j :: 0 <= i < j < |ps| ==> !(ps[i].ContentChange? && ps[j].ContentChange?)
  }

  ghost predicate Sections(ps: seq<Pending>) {
    forall i :: 0 <= i < |ps| && ps[i].ContentChange? ==> DistinctNames(ps[i].content.envs)
  }

  ghost predicate ValidTable(t: Table) {
    UniqueKeys(t.rows) && forall id :: id in t.rows ==> id < t.next
  }

  ghost predicate ValidState(s: StackState) {
    ValidTable(s.table) && DistinctNames(s.content.envs) && OneContent(s.pending) && Sections(s.pending)
  }

  // ---------------------------------------------------------------- the deploy step

  /** The settled section, as a list and as the dictionary the rest of the file is expanded in. */
  function Specs(envs: seq<EnvVar>, overrides: map<string, Value>, gen: string -> Value,
                 shared: map<string, Value>): seq<EnvSpec> {
    seq(|envs|, i requires 0 <= i < |envs| => Settled(envs[i], envs, overrides, gen, shared))
  }

  function Dict(specs: seq<EnvSpec>): map<string, Value> {
    if specs == [] then map[]
    else
      var e := specs[|specs| - 1];
      Dict(specs[..|specs| - 1])[e.key := e.value]
  }

  lemma {:induction false} DictAt(specs: seq<EnvSpec>, k: nat)
    requires (forall i, j :: 0 <= i < j < |specs| ==> specs[i].key != specs[j].key) && k < |specs|
    ensures specs[k].key in Dict(specs) && Dict(specs)[specs[k].key] == specs[k].value
  {
    var n := |specs| - 1;
    if k < n { DictAt(specs[..n], k); }
  }

  function Exposed(specs: seq<EnvSpec>): seq<Entry> {
    if specs == [] then []
    else
      var e := specs[|specs| - 1];
      if e.exposed then Exposed(specs[..|specs| - 1]) + [Entry(e.key, e.value)] else Exposed(specs[..|specs| - 1])
  }

  /** The entries a compile exposes. */
  function NewEntries(envs: seq<EnvVar>, overrides: map<string, Value>, gen: string -> Value,
                      shared: map<string, Value>): seq<Entry> {
    Exposed(Specs(envs, overrides, gen, shared))
  }

  /** The inline configs, expanded with the settled section. */
  function NewContents(content: Content, overrides: map<string, Value>, gen: string -> Value,
                       shared: map<string, Value>): map<string, Value> {
    Contents(content.configs, Dict(Specs(content.envs, overrides, gen, shared)))
  }

  /** The new versions of the configs once the section is settled. */
  function NewConfigs(stored: map<string, Versioned>, content: Content, overrides: map<string, Value>,
                      gen: string -> Value, shared: map<string, Value>): map<string, Versioned> {
    Advance(stored, NewContents(content, overrides, gen, shared))
  }

  /** What the compiler takes the overrides to be: the table, with the changes that are applied
      but not yet marked so replayed over it. */
  function Seen(t: Table, cs: seq<Change>): map<string, Value>
    requires UniqueKeys(t.rows)
  {
    Replay(OverrideMap(t.rows), cs)
  }

  /** Compiling `content` against table `u`, then storing what the compile exposed. */
  function Compiled(s: StackState, u: Table, gen: string -> Value, shared: map<string, Value>): Option<StackState>
    requires UniqueKeys(u.rows)
  {
    var content := NewContent(s.pending, s.content);
    var overrides := Seen(u, EnvChanges(s.pending));
    match ApplyAll(u, Adds(NewEntries(content.envs, overrides, gen, shared)))
    case None => None
    case Some(v) => Some(StackState(v, content, NewConfigs(s.configs, content, overrides, gen, shared), []))
  }

  /** `apply_pending_changes`; `None` is an integrity error, which rolls everything back. */
  function Deployed(s: StackState, gen: string -> Value, shared: map<string, Value>): Option<StackState>
    requires ValidTable(s.table)
  {
    var applied := ApplyAll(s.table, EnvChanges(s.pending));
    if applied.None? then None
    else
      ApplyAllKeepsUnique(s.table, EnvChanges(s.pending));
      Compiled(s, applied.value, gen, shared)
  }

  // ---------------------------------------------------------------- adding a change

  /** `add_change`: a pending content change is overwritten, anything else is appended. */
  function Requested(ps: seq<Pending>, p: Pending): seq<Pending> {
    var n := FirstContent(ps);
    if p.ContentChange? && n < |ps| then ps[n := p] else ps + [p]
  }

  lemma {:induction false} EnvChangesOverwrite(ps: seq<Pending>, n: nat, p: Pending)
    requires n < |ps| && ps[n].ContentChange? && p.ContentChange?
    ensures EnvChanges(ps[n := p]) == EnvChanges(ps)
  {
    var m := |ps| - 1;
    if n < m {
      EnvChangesOverwrite(ps[..m], n, p);
      assert ps[n := p][..m] == ps[..m][n := p];
    } else {
      assert ps[n := p][..m] == ps[..m];
    }
  }

  lemma FirstContentIs(ps: seq<Pending>, n: nat)
    requires n <= |ps| && (n < |ps| ==> ps[n].ContentChange?) && forall i :: 0 <= i < n ==> ps[i].EnvChange?
    ensures FirstContent(ps) == n
  {}

  lemma OverwriteIs(ps: seq<Pending>, n: nat, p: Pending, content: Content)
    requires OneContent(ps) && n == FirstContent(ps) < |ps| && p.ContentChange?
    ensures OneContent(ps[n := p]) && EnvChanges(ps[n := p]) == EnvChanges(ps)
            && NewContent(ps[n := p], content) == p.content
  {
    EnvChangesOverwrite(ps, n, p);
    FirstContentIs(ps[n := p], n);
  }

  lemma AppendIs(ps: seq<Pending>, p: Pending, content: Content)
    requires OneContent(ps) && (p.EnvChange? || FirstContent(ps) == |ps|)
    ensures OneContent(ps + [p])
    ensures EnvChanges(ps + [p]) == if p.EnvChange? then EnvChanges(ps) + [p.change] else EnvChanges(ps)
    ensures NewContent(ps + [p], content) == if p.ContentChange? then p.content else NewContent(ps, content)
  {
    AppendedContent(ps, p);
    AppendKeepsOne(ps, p);
    AppendedChange(ps, p);
    var n, qs := FirstContent(ps), ps + [p];
    assert n < |ps| ==> qs[n] == ps[n];
  }

  lemma AppendedChange(ps: seq<Pending>, p: Pending)
    ensures EnvChanges(ps + [p]) == if p.EnvChange? then EnvChanges(ps) + [p.change] else EnvChanges(ps)
  {
    assert (ps + [p])[..|ps|] == ps;
  }

  lemma AppendKeepsOne(ps: seq<Pending>, p: Pending)
    requires OneContent(ps) && (p.EnvChange? || FirstContent(ps) == |ps|)
    ensures OneContent(ps + [p])
  {
    var qs := ps + [p];
    forall i, j | 0 <= i < j < |qs| ensures !(qs[i].ContentChange? && qs[j].ContentChange?) {
      assert qs[i] == ps[i];
      if j < |ps| { assert qs[j] == ps[j]; }
    }
  }

  lemma AppendedContent(ps: seq<Pending>, p: Pending)
    ensures FirstContent(ps + [p]) == if FirstContent(ps) == |ps| && p.EnvChange? then |ps| + 1 else FirstContent(ps)
  {
    var n, qs := FirstContent(ps), ps + [p];
    forall i | 0 <= i < n ensures qs[i].EnvChange? { assert qs[i] == ps[i]; }
    if n < |ps| {
      assert qs[n] == ps[n];
      FirstContentIs(qs, n);
    } else {
      FirstContentIs(qs, if p.EnvChange? then n + 1 else n);
    }
  }

  /** The latest requested content is the one deployed next, override changes keep their order,
      and never do two content changes wait. */
  lemma RequestedIs(ps: seq<Pending>, p: Pending, content: Content)
    requires OneContent(ps)
    ensures OneContent(Requested(ps, p))
    ensures EnvChanges(Requested(ps, p)) == if p.EnvChange? then EnvChanges(ps) + [p.change] else EnvChanges(ps)
    ensures NewContent(Requested(ps, p), content) == if p.ContentChange? then p.content else NewContent(ps, content)
  {
    if p.ContentChange? && FirstContent(ps) < |ps| {
      OverwriteIs(ps, FirstContent(ps), p, content);
    } else {
      AppendIs(ps, p, content);
    }
  }

  // ---------------------------------------------------------------- what a compile exposes

  /** The names the section's templates and `__` variables go by have overrides already. */
  ghost predicate Complete(envs: seq<EnvVar>, overrides: map<string, Value>) {
    forall i :: 0 <= i < |envs| && (IsTemplate(envs[i].value) || "__" <= envs[i].key) ==> envs[i].key in overrides
  }

  lemma {:induction false} ExposedIs(specs: seq<EnvSpec>, e: Entry)
    ensures e in Exposed(specs) <==> EnvSpec(e.key, e.value, true) in specs
  {
    if specs != [] {
      var n := |specs| - 1;
      ExposedIs(specs[..n], e);
      assert specs == specs[..n] + [specs[n]];
    }
  }

  lemma {:induction false} ExposedDistinct(specs: seq<EnvSpec>)
    requires forall i, j :: 0 <= i < j < |specs| ==> specs[i].key != specs[j].key
    ensures DistinctKeys(Exposed(specs))
  {
    if specs != [] {
      var n := |specs| - 1;
      ExposedDistinct(specs[..n]);
      var before := Exposed(specs[..n]);
      forall i | 0 <= i < |before| ensures before[i].key != specs[n].key {
        ExposedIs(specs[..n], before[i]);
        var j :| 0 <= j < n && specs[..n][j] == EnvSpec(before[i].key, before[i].value, true);
        assert specs[j].key != specs[n].key;
      }
    }
  }

  lemma NothingExposed(specs: seq<EnvSpec>)
    requires forall i :: 0 <= i < |specs| ==> !specs[i].exposed
    ensures Exposed(specs) == []
  {
    if Exposed(specs) != [] { ExposedIs(specs, Exposed(specs)[0]); }
  }

  lemma NewEntryIs(envs: seq<EnvVar>, overrides: map<string, Value>, gen: string -> Value, shared: map<string, Value>,
                   e: Entry) returns (i: nat)
    requires e in NewEntries(envs, overrides, gen, shared)
    ensures i < |envs| && Raw(envs[i], overrides, gen).exposed && envs[i].key == e.key
    ensures e.value == Settled(envs[i], envs, overrides, gen, shared).value
  {
    var specs := Specs(envs, overrides, gen, shared);
    ExposedIs(specs, e);
    i :| 0 <= i < |specs| && specs[i] == EnvSpec(e.key, e.value, true);
  }

  lemma IsNewEntry(envs: seq<EnvVar>, overrides: map<string, Value>, gen: string -> Value, shared: map<string, Value>,
                   i: nat)
    requires i < |envs| && Raw(envs[i], overrides, gen).exposed
    ensures var e := Entry(envs[i].key, Settled(envs[i], envs, overrides, gen, shared).value);
            e in NewEntries(envs, overrides, gen, shared)
  {
    var specs := Specs(envs, overrides, gen, shared);
    ExposedIs(specs, Entry(specs[i].key, specs[i].value));
    assert specs[i] in specs;
  }

  lemma NewEntriesAreNew(envs: seq<EnvVar>, rows: map<nat, Entry>, gen: string -> Value, shared: map<string, Value>,
                         e: Entry)
    requires UniqueKeys(rows) && e in NewEntries(envs, OverrideMap(rows), gen, shared)
    ensures !HasKey(rows, e.key)
  {
    var i := NewEntryIs(envs, OverrideMap(rows), gen, shared, e);
    NewOverridesAreNew(envs[i], OverrideMap(rows), gen);
    OverrideMapIs(rows, e.key);
  }

  lemma NewEntriesDistinct(envs: seq<EnvVar>, overrides: map<string, Value>, gen: string -> Value,
                           shared: map<string, Value>)
    requires DistinctNames(envs)
    ensures DistinctKeys(NewEntries(envs, overrides, gen, shared))
  {
    ExposedDistinct(Specs(envs, overrides, gen, shared));
  }

  lemma NewEntriesFit(u: Table, envs: seq<EnvVar>, gen: string -> Value, shared: map<string, Value>) returns (v: Table)
    requires ValidTable(u) && DistinctNames(envs)
    ensures var es := NewEntries(envs, OverrideMap(u.rows), gen, shared);
            ApplyAll(u, Adds(es)) == Some(v) && Extended(u, es, v) && ValidTable(v)
  {
    var es := NewEntries(envs, OverrideMap(u.rows), gen, shared);
    NewEntriesDistinct(envs, OverrideMap(u.rows), gen, shared);
    forall i | 0 <= i < |es| ensures !HasKey(u.rows, es[i].key) {
      NewEntriesAreNew(envs, u.rows, gen, shared, es[i]);
    }
    v := AddsApply(u, es);
    ApplyAllKeepsUnique(u, Adds(es));
  }

  lemma RowsStay(u: Table, es: seq<Entry>, v: Table, k: string)
    requires UniqueKeys(u.rows) && Extended(u, es, v)
    ensures k in OverrideMap(u.rows) ==> k in OverrideMap(v.rows) && OverrideMap(v.rows)[k] == OverrideMap(u.rows)[k]
    ensures k in OverrideMap(v.rows) && k !in OverrideMap(u.rows) ==> exists e :: e in es && e.key == k
  {
    OverrideMapIs(u.rows, k);
    OverrideMapIs(v.rows, k);
    if HasKey(u.rows, k) {
      var id :| id in u.rows && u.rows[id].key == k;
      assert v.rows[id] == u.rows[id];
    } else if HasKey(v.rows, k) {
      var id :| id in v.rows && v.rows[id].key == k;
      assert v.rows[id] in es;
    }
  }

  lemma EntryIsStored(u: Table, es: seq<Entry>, v: Table, e: Entry)
    requires Extended(u, es, v) && e in es
    ensures e.key in OverrideMap(v.rows) && OverrideMap(v.rows)[e.key] == e.value
  {
    assert HasEntry(v.rows, e);
    OverrideMapIs(v.rows, e.key);
  }

  lemma ExtendedIsStoredAfter(u: Table, v: Table, envs: seq<EnvVar>, gen: string -> Value, shared: map<string, Value>)
    requires UniqueKeys(u.rows) && DistinctNames(envs)
    requires Extended(u, NewEntries(envs, OverrideMap(u.rows), gen, shared), v)
    ensures StoredAfter(OverrideMap(v.rows), envs, OverrideMap(u.rows), gen, shared)
  {
    var o, p, es := OverrideMap(u.rows), OverrideMap(v.rows), NewEntries(envs, OverrideMap(u.rows), gen, shared);
    forall k | k in o ensures k in p && p[k] == o[k] { RowsStay(u, es, v, k); }
    forall i | 0 <= i < |envs| && Raw(envs[i], o, gen).exposed
      ensures envs[i].key in p && p[envs[i].key] == Settled(envs[i], envs, o, gen, shared).value
    {
      IsNewEntry(envs, o, gen, shared, i);
      EntryIsStored(u, es, v, Entry(envs[i].key, Settled(envs[i], envs, o, gen, shared).value));
    }
    forall k | k in p && k !in o
      ensures exists i :: 0 <= i < |envs| && envs[i].key == k && Raw(envs[i], o, gen).exposed
    {
      RowsStay(u, es, v, k);
      var e :| e in es && e.key == k;
      var i := NewEntryIs(envs, o, gen, shared, e);
    }
  }

  // ---------------------------------------------------------------- one deployment

  /** A deployment whose changes were checked on request fails only when the changes themselves
      break the key constraint: storing what the compile generated never does. The compiler sees
      the table's own values, every row of the changed table is kept, and each exposed value
      becomes an override. */
  lemma DeployStoresWhatItGenerates(s: StackState, gen: string -> Value, shared: map<string, Value>)
    requires ValidState(s) && WellFormed(s.table, EnvChanges(s.pending))
    ensures Deployed(s, gen, shared).Some? <==> ApplyAll(s.table, EnvChanges(s.pending)).Some?
    ensures Deployed(s, gen, shared).Some? ==>
              var u, d := ApplyAll(s.table, EnvChanges(s.pending)).value, Deployed(s, gen, shared).value;
              ValidTable(u) && ValidState(d) && DeployedTo(s, u, d, gen, shared)
  {
    var cs := EnvChanges(s.pending);
    if ApplyAll(s.table, cs).Some? {
      var u := ApplyAll(s.table, cs).value;
      ApplyAllKeepsUnique(s.table, cs);
      ReplayIsNoOp(s.table, cs);
      CompiledStores(s, u, gen, shared);
    }
  }

  /** `d` is what deploying `s` should give when its changes turn the table into `u`. */
  ghost predicate DeployedTo(s: StackState, u: Table, d: StackState, gen: string -> Value, shared: map<string, Value>)
    requires UniqueKeys(u.rows) && UniqueKeys(d.table.rows)
  {
    var content := NewContent(s.pending, s.content);
    && d.pending == [] && d.content == content
    && Extended(u, NewEntries(content.envs, OverrideMap(u.rows), gen, shared), d.table)
    && StoredAfter(OverrideMap(d.table.rows), content.envs, OverrideMap(u.rows), gen, shared)
    && d.configs == NewConfigs(s.configs, content, OverrideMap(u.rows), gen, shared)
  }

  lemma CompiledIs(s: StackState, u: Table, v: Table, gen: string -> Value, shared: map<string, Value>)
    requires UniqueKeys(u.rows)
    requires var overrides := Seen(u, EnvChanges(s.pending));
             ApplyAll(u, Adds(NewEntries(NewContent(s.pending, s.content).envs, overrides, gen, shared))) == Some(v)
    ensures var content, overrides := NewContent(s.pending, s.content), Seen(u, EnvChanges(s.pending));
            var configs := NewConfigs(s.configs, content, overrides, gen, shared);
            Compiled(s, u, gen, shared) == Some(StackState(v, content, configs, []))
  {}

  lemma CompiledStores(s: StackState, u: Table, gen: string -> Value, shared: map<string, Value>)
    requires ValidState(s) && ValidTable(u) && Seen(u, EnvChanges(s.pending)) == OverrideMap(u.rows)
    ensures Compiled(s, u, gen, shared).Some?
    ensures var d := Compiled(s, u, gen, shared).value; ValidState(d) && DeployedTo(s, u, d, gen, shared)
  {
    var envs := NewContent(s.pending, s.content).envs;
    var v := NewEntriesFit(u, envs, gen, shared);
    ExtendedIsStoredAfter(u, v, envs, gen, shared);
    CompiledIs(s, u, v, gen, shared);
  }
}
