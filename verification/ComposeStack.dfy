/** The stack record and the two methods that change it in place, each proved to do what the
    deploy step of Deployments says. */
module ComposeStack {
  import opened Text
  import opened Values
  import opened Overrides
  import opened Redeploy
  import opened EnvCompile
  import opened Configs
  import opened Deployments
  import opened DeploymentRuns

  class Stack {
    var table: Table
    var content: Content
    var configs: map<string, Versioned>
    var pending: seq<Pending>

    ghost function State(): StackState
      reads this
    {
      StackState(table, content, configs, pending)
    }

    ghost predicate Valid()
      reads this
    {
      ValidState(State())
    }

    /** A stack is created empty, as `clone` and the create view do before they add changes. */
    constructor ()
      ensures Valid() && State() == StackState(Table(map[], 0), Content([], []), map[], [])
    {
      table, content, configs, pending := Table(map[], 0), Content([], []), map[], [];
    }

    method AddChange(p: Pending)
      requires Valid() && (p.ContentChange? ==> DistinctNames(p.content.envs))
      modifies this`pending
      ensures Valid() && pending == Requested(old(pending), p)
    {
      RequestedIs(pending, p, content);
      var i := FindPending(p);
      if i < |pending| {
        pending := pending[i := p];
      } else {
        pending := pending + [p];
      }
    }

    /** The pending change that `p` overwrites; past the end if there is none. */
    method FindPending(p: Pending) returns (i: nat)
      ensures i == if p.ContentChange? then FirstContent(pending) else |pending|
    {
      if p.EnvChange? { return |pending|; }
      i := 0;
      while i < |pending| && !pending[i].ContentChange?
        invariant i <= FirstContent(pending)
      {
        i := i + 1;
      }
    }

    /** The loop over the pending override changes; false is an integrity error. */
    method ApplyOverrideChanges(changes: seq<Change>) returns (ok: bool)
      modifies this`table
      ensures ok <==> ApplyAll(old(table), changes).Some?
      ensures ok ==> table == ApplyAll(old(table), changes).value
    {
      var i := 0;
      while i < |changes|
        invariant i <= |changes|
        invariant ApplyAll(old(table), changes) == ApplyAll(table, changes[i..])
      {
        ok := ApplyOverrideChange(changes[i]);
        if !ok { return; }
        assert changes[i..][1..] == changes[i + 1..];
        i := i + 1;
      }
      ok := true;
    }

    method ApplyOverrideChange(change: Change) returns (ok: bool)
      modifies this`table
      ensures ok <==> Applied(old(table), change).Some?
      ensures ok ==> Applied(old(table), change) == Some(table)
    {
      match change {
        case Add(e) =>
          if KeyTaken(table.rows, e.key, table.next) { return false; }
          table := Table(table.rows[table.next := e], table.next + 1);
        case Update(id, _, e) =>
          if id in table.rows {
            if KeyTaken(table.rows, e.key, id) { return false; }
            table := Table(table.rows[id := e], table.next);
          }
        case Delete(id, _) =>
          table := Table(table.rows - {id}, table.next);
      }
      return true;
    }

    /** The overrides as the compiler collects them: the rows, then the unapplied changes. */
    method CollectOverrides(changes: seq<Change>) returns (overrides: map<string, Value>)
      requires UniqueKeys(table.rows)
      ensures overrides == Seen(table, changes)
    {
      overrides := OverrideMap(table.rows);
      for i := 0 to |changes|
        invariant Replay(overrides, changes[i..]) == Seen(table, changes)
      {
        match changes[i] {
          case Delete(_, was) => overrides := overrides - {was.key};
          case Update(_, _, e) => overrides := overrides[e.key := e.value];
          case Add(e) => overrides := overrides[e.key := e.value];
        }
        assert changes[i..][1..] == changes[i + 1..];
      }
    }

    /** `extract_new_env_overrides` */
    method ExtractNewOverrides(specs: seq<EnvSpec>) returns (entries: seq<Entry>)
      ensures entries == Exposed(specs)
    {
      entries := [];
      for i := 0 to |specs|
        invariant entries == Exposed(specs[..i])
      {
        assert specs[..i + 1][..i] == specs[..i];
        if specs[i].exposed { entries := entries + [Entry(specs[i].key, specs[i].value)]; }
      }
      assert specs[..|specs|] == specs;
    }

    method PendingOverrideChanges() returns (changes: seq<Change>)
      ensures changes == EnvChanges(pending)
    {
      changes := [];
      for i := 0 to |pending|
        invariant changes == EnvChanges(pending[..i])
      {
        assert pending[..i + 1][..i] == pending[..i];
        if pending[i].EnvChange? { changes := changes + [pending[i].change]; }
      }
      assert pending[..|pending|] == pending;
    }

    /** `apply_pending_changes` within the transaction of the deploy view: if the database
        refuses a row, everything is as before. */
    method ApplyPendingChanges(gen: string -> Value, shared: map<string, Value>) returns (ok: bool)
      requires ValidTable(table) && DistinctNames(content.envs) && Sections(pending)
      modifies this
      ensures ok <==> Deployed(old(State()), gen, shared).Some?
      ensures State() == if ok then Deployed(old(State()), gen, shared).value else old(State())
    {
      var saved := table;
      var changes := PendingOverrideChanges();
      ok := ApplyOverrideChanges(changes);
      if ok {
        ApplyAllKeepsUnique(saved, changes);
        ok := CompileAndStore(changes, gen, shared);
      }
      if !ok { table := saved; }
    }

    method AppendOverrideChanges(changes: seq<Change>)
      modifies this`pending
      ensures pending == old(pending) + AsPending(changes)
    {
      for i := 0 to |changes|
        invariant pending == old(pending) + AsPending(changes[..i])
      {
        pending := pending + [EnvChange(changes[i])];
        assert AsPending(changes[..i + 1]) == AsPending(changes[..i]) + [EnvChange(changes[i])];
      }
      assert changes[..|changes|] == changes;
    }

    /** `put` of the redeploy view: the changes that lead back to the target snapshot are added
        to whatever is pending, and everything pending is applied. */
    method Redeploy(current: seq<Dto>, target: seq<Dto>, targetContent: Content, gen: string -> Value,
                    shared: map<string, Value>) returns (ok: bool)
      requires Valid() && Lists(current, table.rows) && DistinctNames(targetContent.envs)
      modifies this
      ensures Valid()
      ensures var s := old(State());
              var all := s.(pending := s.pending + RedeployChanges(s, current, targetContent, target));
              && (ok <==> Deployed(all, gen, shared).Some?)
              && State() == if ok then Deployed(all, gen, shared).value else s
    {
      var saved := pending;
      if content != targetContent { pending := pending + [ContentChange(targetContent)]; }
      var changes := NewChanges(current, target);
      AppendOverrideChanges(changes);
      assert pending == saved + RedeployChanges(old(State()), current, targetContent, target);
      ghost var all := State();
      ok := ApplyPendingChanges(gen, shared);
      if ok { DeployedKeepsValid(all, gen, shared); } else { pending := saved; }
    }

    method CompileAndStore(changes: seq<Change>, gen: string -> Value, shared: map<string, Value>) returns (ok: bool)
      requires UniqueKeys(table.rows) && changes == EnvChanges(pending)
      requires DistinctNames(NewContent(pending, content).envs)
      modifies this
      ensures ok <==> Compiled(old(State()), old(table), gen, shared).Some?
      ensures ok ==> Compiled(old(State()), old(table), gen, shared) == Some(State())
      ensures !ok ==> content == old(content) && configs == old(configs) && pending == old(pending)
    {
      var newContent := NewContent(pending, content);
      var overrides := CollectOverrides(changes);
      var entries, newConfigs := Compile(newContent, overrides, gen, shared);
      assert entries == NewEntries(newContent.envs, Seen(old(table), EnvChanges(old(pending))), gen, shared);
      ok := ApplyOverrideChanges(Adds(entries));
      if ok {
        assert ApplyAll(old(table), Adds(entries)) == Some(table);
        content, configs, pending := newContent, newConfigs, [];
      }
    }

    /** `compile_stack_for_deployment`, as far as the stored artifacts go. */
    method Compile(newContent: Content, overrides: map<string, Value>, gen: string -> Value, shared: map<string, Value>)
      returns (entries: seq<Entry>, newConfigs: map<string, Versioned>)
      requires DistinctNames(newContent.envs)
      ensures entries == NewEntries(newContent.envs, overrides, gen, shared)
      ensures newConfigs == NewConfigs(configs, newContent, overrides, gen, shared)
    {
      var specs, environ := CompileEnv(newContent.envs, overrides, gen, shared);
      assert specs == Specs(newContent.envs, overrides, gen, shared);
      newConfigs := ExtractConfigContents(newContent.configs, configs, Dict(specs));
      entries := ExtractNewOverrides(specs);
    }
  }
}
