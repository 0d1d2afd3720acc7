/** Redeploying a snapshot while override changes are pending: the changes computed from the rows as
    they are now are applied after the pending ones (backend/compose/views/stacks.py). */
module RedeployPending {
  import opened Text
  import opened Values
  import opened Overrides
  import opened Redeploy
  import opened EnvCompile
  import opened Deployments
  import opened DeploymentRuns

  function RowAt(rows: map<nat, Entry>, id: nat): Option<Entry> {
    if id in rows then Some(rows[id]) else None
  }

  // ---------------------------------------------------------------- what the pending changes leave

  lemma {:induction false} PendingRow(t: Table, cs: seq<Change>, u: Table, i: nat)
    requires WellFormed(t, cs) && ApplyAll(t, cs) == Some(u) && i < |cs| && !cs[i].Add?
    ensures RowAt(u.rows, cs[i].id) == if cs[i].Update? then Some(cs[i].entry) else None
    decreases |cs|
  {
    WellFormedTail(t, cs);
    if i > 0 {
      PendingRow(Applied(t, cs[0]).value, cs[1..], u, i - 1);
    } else if cs[0].Update? {
      var id := WrittenRowIsFinal(t, cs);
      UpdatedStays(t, cs, u);
    } else {
      DeletedStays(t, cs, u);
    }
  }

  lemma LaterDoNotName(t: Table, cs: seq<Change>, id: nat)
    requires WellFormed(t, cs) && cs != [] && Target(cs[0]) == Some(id)
    ensures !Names(cs[1..], id)
  {
    forall i | 0 <= i < |cs[1..]| ensures Target(cs[1..][i]) != Some(id) { assert cs[1..][i] == cs[i + 1]; }
  }

  lemma UpdatedStays(t: Table, cs: seq<Change>, u: Table)
    requires WellFormed(t, cs) && ApplyAll(t, cs) == Some(u) && cs != [] && cs[0].Update?
    ensures RowAt(u.rows, cs[0].id) == Some(cs[0].entry)
  {
    WellFormedTail(t, cs);
    assert TargetsIn(t.rows, cs[0]);
    LaterDoNotName(t, cs, cs[0].id);
    UnnamedStays(Applied(t, cs[0]).value, cs[1..], cs[0].id);
  }

  lemma {:induction false} AbsentStays(t: Table, cs: seq<Change>, u: Table, id: nat)
    requires WellFormed(t, cs) && ApplyAll(t, cs) == Some(u) && id !in t.rows && id < t.next
    ensures id !in u.rows
    decreases |cs|
  {
    if cs != [] {
      WellFormedTail(t, cs);
      assert TargetsIn(t.rows, cs[0]);
      AbsentStays(Applied(t, cs[0]).value, cs[1..], u, id);
    }
  }

  lemma DeletedStays(t: Table, cs: seq<Change>, u: Table)
    requires WellFormed(t, cs) && ApplyAll(t, cs) == Some(u) && cs != [] && cs[0].Delete?
    ensures cs[0].id !in u.rows
  {
    WellFormedTail(t, cs);
    assert TargetsIn(t.rows, cs[0]);
    AbsentStays(Applied(t, cs[0]).value, cs[1..], u, cs[0].id);
  }

  lemma FirstAddStays(t: Table, cs: seq<Change>, u: Table)
    requires WellFormed(t, cs) && ApplyAll(t, cs) == Some(u) && cs != [] && cs[0].Add?
    ensures RowAt(u.rows, t.next) == Some(cs[0].entry)
  {
    WellFormedTail(t, cs);
    forall i | 0 <= i < |cs[1..]| ensures Target(cs[1..][i]) != Some(t.next) {
      assert TargetsIn(t.rows, cs[i + 1]) && cs[1..][i] == cs[i + 1];
    }
    UnnamedStays(Applied(t, cs[0]).value, cs[1..], t.next);
  }

  /** Each pending addition has a row of its own. */
  lemma {:induction false} AddedRow(t: Table, cs: seq<Change>, u: Table, i: nat) returns (id: nat)
    requires WellFormed(t, cs) && ApplyAll(t, cs) == Some(u) && i < |cs| && cs[i].Add?
    ensures id >= t.next && RowAt(u.rows, id) == Some(cs[i].entry)
    decreases |cs|
  {
    WellFormedTail(t, cs);
    if i > 0 {
      id := AddedRow(Applied(t, cs[0]).value, cs[1..], u, i - 1);
    } else {
      FirstAddStays(t, cs, u);
      id := t.next;
    }
  }

  /** And each new row comes from one. */
  lemma {:induction false} NewRowIsAdded(t: Table, cs: seq<Change>, u: Table, id: nat) returns (i: nat)
    requires WellFormed(t, cs) && ApplyAll(t, cs) == Some(u) && id in u.rows && id !in t.rows
    ensures i < |cs| && cs[i].Add? && cs[i].entry == u.rows[id]
    decreases |cs|
  {
    if cs == [] {
      assert false;
    } else {
      WellFormedTail(t, cs);
      assert TargetsIn(t.rows, cs[0]);
      if cs[0].Add? && id == t.next {
        FirstAddStays(t, cs, u);
        i := 0;
      } else {
        var j := NewRowIsAdded(Applied(t, cs[0]).value, cs[1..], u, id);
        i := j + 1;
      }
    }
  }

  // ---------------------------------------------------------------- what the edits leave

  /** What the edit computed for one row makes of it, whatever the row is by then. */
  function EditedRow(d: Dto, goal: map<nat, Entry>, now: Option<Entry>): Option<Entry> {
    if d.id !in goal || now.None? then None
    else if d.entry != goal[d.id] then Some(goal[d.id])
    else now
  }

  function FirstEdit(d: Dto, goal: map<nat, Entry>): seq<Change> {
    if d.id !in goal then [Delete(d.id, d.entry)]
    else if d.entry != goal[d.id] then [Update(d.id, d.entry, goal[d.id])]
    else []
  }

  lemma OneEdit(t: Table, d: Dto, goal: map<nat, Entry>, v: Table)
    requires ApplyAll(t, FirstEdit(d, goal)) == Some(v)
    ensures v.next == t.next
    ensures RowAt(v.rows, d.id) == EditedRow(d, goal, RowAt(t.rows, d.id))
    ensures forall id :: id != d.id ==> RowAt(v.rows, id) == RowAt(t.rows, id)
  {
    var es := FirstEdit(d, goal);
    if es != [] {
      assert es[1..] == [];
      assert Applied(t, es[0]) == Some(v);
    }
  }

  lemma EditsSplit(t: Table, rest: seq<Dto>, goal: map<nat, Entry>, v: Table) returns (m: Table)
    requires rest != [] && ApplyAll(t, EditsFor(rest, goal)) == Some(v)
    ensures ApplyAll(t, FirstEdit(rest[0], goal)) == Some(m) && ApplyAll(m, EditsFor(rest[1..], goal)) == Some(v)
  {
    assert EditsFor(rest, goal) == FirstEdit(rest[0], goal) + EditsFor(rest[1..], goal);
    ApplyConcat(t, FirstEdit(rest[0], goal), EditsFor(rest[1..], goal));
    m := ApplyAll(t, FirstEdit(rest[0], goal)).value;
  }

  lemma {:induction false} EditedElsewhere(t: Table, rest: seq<Dto>, goal: map<nat, Entry>, v: Table, id: nat)
    requires ApplyAll(t, EditsFor(rest, goal)) == Some(v) && !HasId(rest, id)
    ensures v.next == t.next && RowAt(v.rows, id) == RowAt(t.rows, id)
    decreases |rest|
  {
    if rest != [] {
      var m := EditsSplit(t, rest, goal, v);
      HasIdTail(rest, id);
      OneEdit(t, rest[0], goal, m);
      EditedElsewhere(m, rest[1..], goal, v, id);
    }
  }

  lemma {:induction false} EditedAt(t: Table, rest: seq<Dto>, goal: map<nat, Entry>, v: Table, i: nat)
    requires ApplyAll(t, EditsFor(rest, goal)) == Some(v) && DistinctIds(rest) && i < |rest|
    ensures v.next == t.next && RowAt(v.rows, rest[i].id) == EditedRow(rest[i], goal, RowAt(t.rows, rest[i].id))
    decreases |rest|
  {
    var m := EditsSplit(t, rest, goal, v);
    OneEdit(t, rest[0], goal, m);
    if i == 0 {
      assert !HasId(rest[1..], rest[0].id);
      EditedElsewhere(m, rest[1..], goal, v, rest[0].id);
    } else {
      DistinctTail(rest);
      EditedAt(m, rest[1..], goal, v, i - 1);
    }
  }

  lemma DistinctTail(s: seq<Dto>)
    requires s != [] && DistinctIds(s)
    ensures DistinctIds(s[1..])
  {
    forall i, j | 0 <= i < j < |s[1..]| ensures s[1..][i].id != s[1..][j].id { assert s[i + 1].id != s[j + 1].id; }
  }

  // ---------------------------------------------------------------- what the additions leave

  lemma {:induction false} AddsExtend(t: Table, es: seq<Entry>, u: Table)
    requires ValidTable(t) && ApplyAll(t, Adds(es)) == Some(u)
    ensures Extended(t, es, u)
    decreases |es|
  {
    if es != [] {
      AppliedKeepsUnique(t, Add(es[0]));
      var v := Table(t.rows[t.next := es[0]], t.next + 1);
      assert Adds(es)[1..] == Adds(es[1..]);
      AddsExtend(v, es[1..], u);
      ExtendedStep(t, es, v, u);
    }
  }

  lemma {:induction false} AddsCollide(t: Table, es: seq<Entry>, i: nat)
    requires ValidTable(t) && i < |es| && HasKey(t.rows, es[i].key)
    ensures ApplyAll(t, Adds(es)).None?
    decreases |es|
  {
    assert Adds(es)[1..] == Adds(es[1..]);
    var id :| id in t.rows && t.rows[id].key == es[i].key;
    if Applied(t, Add(es[0])).Some? {
      AppliedKeepsUnique(t, Add(es[0]));
      var v := Applied(t, Add(es[0])).value;
      assert v.rows[id].key == es[i].key;
      assert i > 0;
      AddsCollide(v, es[1..], i - 1);
    }
  }

  // ---------------------------------------------------------------- the rows that come back

  /** A pending change for a row that is as in the snapshot now, or a deletion of one of its rows:
      the redeploy does not make up for it. */
  predicate NotUndone(c: Change, goal: map<nat, Entry>) {
    !c.Add? && c.id in goal && (c.Delete? || c.was == goal[c.id])
  }

  /** A pending change puts an entry into the table that the redeploy leaves there. */
  ghost predicate Brings(cs: seq<Change>, goal: map<nat, Entry>, e: Entry) {
    exists i :: 0 <= i < |cs| && BringsOne(cs[i], goal, e)
  }

  predicate BringsOne(c: Change, goal: map<nat, Entry>, e: Entry) {
    !c.Delete? && c.entry == e && (c.Add? || NotUndone(c, goal))
  }

  /** A pending change takes an entry of the snapshot away that the redeploy does not put back. */
  ghost predicate Takes(cs: seq<Change>, goal: map<nat, Entry>, e: Entry) {
    exists i :: 0 <= i < |cs| && TakesOne(cs[i], goal, e)
  }

  predicate TakesOne(c: Change, goal: map<nat, Entry>, e: Entry) {
    NotUndone(c, goal) && goal[c.id] == e
  }

  /** The pending changes bring what they take. */
  ghost predicate Balanced(cs: seq<Change>, goal: map<nat, Entry>) {
    forall e :: Brings(cs, goal, e) <==> Takes(cs, goal, e)
  }

  /** One redeploy over pending changes `cs`: the table it starts from, and the tables after the
      pending changes, after the edits and at the end. */
  datatype Course = Course(t: Table, cs: seq<Change>, current: seq<Dto>, target: seq<Dto>, p: Table, v: Table, u: Table)

  ghost predicate Stages(x: Course) {
    var goal, missing := ById(x.target), Missing(x.target, x.t.rows);
    && ValidTable(x.t) && WellFormed(x.t, x.cs) && Lists(x.current, x.t.rows)
    && DistinctIds(x.target) && UniqueKeys(goal)
    && ApplyAll(x.t, x.cs) == Some(x.p) && ApplyAll(x.p, EditsFor(x.current, goal)) == Some(x.v)
    && ApplyAll(x.v, Adds(missing)) == Some(x.u)
    && ValidTable(x.p) && ValidTable(x.v) && ValidTable(x.u) && Extended(x.v, missing, x.u)
  }

  lemma StagesOf(t: Table, cs: seq<Change>, current: seq<Dto>, target: seq<Dto>, u: Table) returns (x: Course)
    requires ValidTable(t) && WellFormed(t, cs) && Lists(current, t.rows)
    requires DistinctIds(target) && UniqueKeys(ById(target))
    requires ApplyAll(t, cs + Diff(current, target)) == Some(u)
    ensures Stages(x) && x.t == t && x.cs == cs && x.current == current && x.target == target && x.u == u
  {
    var edits, adds := EditsFor(current, ById(target)), Adds(Missing(target, t.rows));
    ApplyConcat(t, cs, edits + adds);
    var p := ApplyAll(t, cs).value;
    ApplyConcat(p, edits, adds);
    var v := ApplyAll(p, edits).value;
    ApplyAllKeepsUnique(t, cs);
    ApplyAllKeepsUnique(p, edits);
    ApplyAllKeepsUnique(v, adds);
    AddsExtend(v, Missing(target, t.rows), u);
    x := Course(t, cs, current, target, p, v, u);
  }

  /** Row `id` after the edits, from what it is after the pending changes. */
  lemma EditedRowIs(x: Course, id: nat)
    requires Stages(x)
    ensures var now := RowAt(x.p.rows, id);
            RowAt(x.v.rows, id) == if id in x.t.rows then EditedRow(Dto(id, x.t.rows[id]), ById(x.target), now) else now
  {
    var Course(t, cs, current, target, p, v, u) := x;
    var goal := ById(target);
    ByIdHas(current, id);
    if HasId(current, id) {
      var i :| 0 <= i < |current| && current[i].id == id;
      ListsEntry(current, t.rows, i);
      EditedAt(p, current, goal, v, i);
    } else {
      EditedElsewhere(p, current, goal, v, id);
    }
  }

  /** What is brought is in the table at the end, and the row it is in is not one of the
      snapshot's unless the change was for that very row. */
  lemma BroughtIsThere(x: Course, i: nat) returns (id: nat)
    requires Stages(x) && i < |x.cs| && !x.cs[i].Delete?
    requires x.cs[i].Add? || NotUndone(x.cs[i], ById(x.target))
    ensures id in x.v.rows && id in x.u.rows && x.u.rows[id] == x.cs[i].entry
    ensures if x.cs[i].Add? then id !in x.t.rows else id == x.cs[i].id
  {
    var Course(t, cs, current, target, p, v, u) := x;
    if cs[i].Add? {
      id := AddedRow(t, cs, p, i);
    } else {
      id := cs[i].id;
      PendingRow(t, cs, p, i);
      assert TargetsIn(t.rows, cs[i]);
    }
    EditedRowIs(x, id);
  }

  /** An entry of the snapshot that is not taken is in the table at the end: in its own row if
      that is there now, else in a row that the table did not have. */
  lemma UntakenIsThere(x: Course, id: nat) returns (at: nat)
    requires Stages(x) && id in ById(x.target)
    requires forall i :: 0 <= i < |x.cs| && NotUndone(x.cs[i], ById(x.target)) ==> x.cs[i].id != id
    ensures at in x.u.rows && x.u.rows[at] == ById(x.target)[id]
    ensures id in x.t.rows ==> at == id
  {
    var Course(t, cs, current, target, p, v, u) := x;
    var goal := ById(target);
    if id in t.rows {
      at := id;
      if Names(cs, id) {
        var i :| 0 <= i < |cs| && Target(cs[i]) == Some(id);
        assert TargetsIn(t.rows, cs[i]) && !NotUndone(cs[i], goal);
        PendingRow(t, cs, p, i);
      } else {
        UnnamedStays(t, cs, id);
      }
      EditedRowIs(x, id);
    } else {
      ByIdHas(target, id);
      var j :| 0 <= j < |target| && target[j].id == id;
      ByIdHolds(target, j);
      MissingIs(target, t.rows, goal[id]);
      assert HasEntry(u.rows, goal[id]);
      at :| at in u.rows && u.rows[at] == goal[id];
    }
  }

  /** Every row at the end holds an entry of the snapshot or one that was brought. */
  lemma RowIsGoalOrBrought(x: Course, id: nat)
    requires Stages(x) && id in x.u.rows
    ensures HasEntry(ById(x.target), x.u.rows[id]) || Brings(x.cs, ById(x.target), x.u.rows[id])
  {
    var Course(t, cs, current, target, p, v, u) := x;
    if id in v.rows {
      KeptRowIs(x, id);
    } else {
      MissingIs(target, t.rows, u.rows[id]);
      var j :| 0 <= j < |target| && target[j].id !in t.rows && target[j].entry == u.rows[id];
      ByIdHolds(target, j);
    }
  }

  lemma KeptRowIs(x: Course, id: nat)
    requires Stages(x) && id in x.v.rows
    ensures x.u.rows[id] == x.v.rows[id]
    ensures (id in ById(x.target) && x.v.rows[id] == ById(x.target)[id]) || Brings(x.cs, ById(x.target), x.v.rows[id])
  {
    var Course(t, cs, current, target, p, v, u) := x;
    var goal := ById(target);
    EditedRowIs(x, id);
    if id !in t.rows {
      var i := NewRowIsAdded(t, cs, p, id);
      assert BringsOne(cs[i], goal, v.rows[id]);
    } else if Names(cs, id) {
      var i :| 0 <= i < |cs| && Target(cs[i]) == Some(id);
      assert TargetsIn(t.rows, cs[i]);
      PendingRow(t, cs, p, i);
      assert v.rows[id] == goal[id] || BringsOne(cs[i], goal, v.rows[id]);
    } else {
      UnnamedStays(t, cs, id);
    }
  }

  lemma BalancedRestores(x: Course)
    requires Stages(x) && Balanced(x.cs, ById(x.target))
    ensures OverrideMap(x.u.rows) == OverrideMap(ById(x.target))
  {
    var Course(t, cs, current, target, p, v, u) := x;
    var goal := ById(target);
    forall id | id in u.rows ensures HasEntry(goal, u.rows[id]) {
      RowIsGoalOrBrought(x, id);
      if Brings(cs, goal, u.rows[id]) { TakenIsGoal(cs, goal, u.rows[id]); }
    }
    forall id | id in goal ensures HasEntry(u.rows, goal[id]) {
      if Takes(cs, goal, goal[id]) {
        var i :| 0 <= i < |cs| && BringsOne(cs[i], goal, goal[id]);
        var at := BroughtIsThere(x, i);
      } else {
        forall i | 0 <= i < |cs| && NotUndone(cs[i], goal) ensures cs[i].id != id {
          assert !TakesOne(cs[i], goal, goal[id]);
        }
        var at := UntakenIsThere(x, id);
      }
    }
    SameEntriesSameMap(u.rows, goal);
  }

  lemma TakenIsGoal(cs: seq<Change>, goal: map<nat, Entry>, e: Entry)
    requires Takes(cs, goal, e)
    ensures HasEntry(goal, e)
  {}

  lemma SameMapSameEntries(a: map<nat, Entry>, b: map<nat, Entry>, e: Entry)
    requires UniqueKeys(a) && UniqueKeys(b) && OverrideMap(a) == OverrideMap(b) && HasEntry(a, e)
    ensures HasEntry(b, e)
  {
    OverrideMapIs(a, e.key);
    OverrideMapIs(b, e.key);
    var id :| id in b && b[id].key == e.key;
    assert b[id] == e;
  }

  lemma AddedAgain(x: Course, id: nat)
    requires Stages(x) && id in ById(x.target) && id !in x.t.rows
    ensures !HasKey(x.v.rows, ById(x.target)[id].key)
  {
    var Course(t, cs, current, target, p, v, u) := x;
    ByIdHas(target, id);
    var j :| 0 <= j < |target| && target[j].id == id;
    ByIdHolds(target, j);
    var es := Missing(target, t.rows);
    MissingIs(target, t.rows, target[j].entry);
    var i :| 0 <= i < |es| && es[i] == target[j].entry;
    if HasKey(v.rows, es[i].key) { AddsCollide(v, es, i); }
  }

  /** An entry of the snapshot that is not taken is nowhere but where the redeploy has it. */
  lemma UntakenIsNotBrought(x: Course, id: nat, at: nat)
    requires Stages(x) && id in ById(x.target)
    requires forall i :: 0 <= i < |x.cs| && NotUndone(x.cs[i], ById(x.target)) ==> x.cs[i].id != id
    requires at in x.v.rows && (id in x.t.rows ==> at != id)
    ensures x.u.rows[at] != ById(x.target)[id]
  {
    var Course(t, cs, current, target, p, v, u) := x;
    if id in t.rows {
      var there := UntakenIsThere(x, id);
    } else {
      AddedAgain(x, id);
    }
  }

  lemma RestoredTakesWhatItBrings(x: Course, e: Entry)
    requires Stages(x) && OverrideMap(x.u.rows) == OverrideMap(ById(x.target))
    requires Brings(x.cs, ById(x.target), e)
    ensures Takes(x.cs, ById(x.target), e)
  {
    var Course(t, cs, current, target, p, v, u) := x;
    var goal := ById(target);
    var i :| 0 <= i < |cs| && BringsOne(cs[i], goal, e);
    var at := BroughtIsThere(x, i);
    assert HasEntry(u.rows, e);
    SameMapSameEntries(u.rows, goal, e);
    var id :| id in goal && goal[id] == e;
    if j :| 0 <= j < |cs| && NotUndone(cs[j], goal) && cs[j].id == id {
      assert TakesOne(cs[j], goal, e);
    } else {
      UntakenIsNotBrought(x, id, at);
    }
  }

  lemma TakenRow(x: Course, i: nat)
    requires Stages(x) && i < |x.cs| && NotUndone(x.cs[i], ById(x.target))
    ensures x.cs[i].id in x.t.rows
    ensures RowAt(x.v.rows, x.cs[i].id) == if x.cs[i].Update? then Some(x.cs[i].entry) else None
  {
    var Course(t, cs, current, target, p, v, u) := x;
    assert TargetsIn(t.rows, cs[i]);
    PendingRow(t, cs, p, i);
    EditedRowIs(x, cs[i].id);
  }

  lemma RestoredBringsWhatItTakes(x: Course, e: Entry)
    requires Stages(x) && OverrideMap(x.u.rows) == OverrideMap(ById(x.target))
    requires Takes(x.cs, ById(x.target), e)
    ensures Brings(x.cs, ById(x.target), e)
  {
    var Course(t, cs, current, target, p, v, u) := x;
    var goal := ById(target);
    var i :| 0 <= i < |cs| && TakesOne(cs[i], goal, e);
    TakenRow(x, i);
    assert HasEntry(goal, e);
    SameMapSameEntries(goal, u.rows, e);
    var at :| at in u.rows && u.rows[at] == e;
    if at in v.rows {
      KeptRowIs(x, at);
      if at == cs[i].id { assert BringsOne(cs[i], goal, e); }
    } else {
      MissingIs(target, t.rows, e);
      var j :| 0 <= j < |target| && target[j].id !in t.rows && target[j].entry == e;
      ByIdHolds(target, j);
    }
  }

  /** Once pending changes and the redeploy's own have gone through, the rows are those of the
      snapshot exactly when the pending changes bring what they take: the entries they add, or
      give rows that are as in the snapshot now, are those they take from such rows or delete. */
  lemma RowsComeBackIff(t: Table, cs: seq<Change>, current: seq<Dto>, target: seq<Dto>, u: Table)
    requires ValidTable(t) && WellFormed(t, cs) && Lists(current, t.rows)
    requires DistinctIds(target) && UniqueKeys(ById(target))
    requires ApplyAll(t, cs + Diff(current, target)) == Some(u)
    ensures UniqueKeys(u.rows)
    ensures OverrideMap(u.rows) == OverrideMap(ById(target)) <==> Balanced(cs, ById(target))
  {
    var x := StagesOf(t, cs, current, target, u);
    if Balanced(cs, ById(target)) { BalancedRestores(x); }
    if OverrideMap(u.rows) == OverrideMap(ById(target)) {
      forall e ensures Brings(cs, ById(target), e) <==> Takes(cs, ById(target), e) {
        if Brings(cs, ById(target), e) { RestoredTakesWhatItBrings(x, e); }
        if Takes(cs, ById(target), e) { RestoredBringsWhatItTakes(x, e); }
      }
    }
  }

  // ---------------------------------------------------------------- the deployment

  lemma {:induction false} EnvChangesBehind(ps: seq<Pending>, qs: seq<Pending>)
    ensures EnvChanges(ps + qs) == EnvChanges(ps) + EnvChanges(qs)
  {
    if qs == [] {
      assert ps + qs == ps;
    } else {
      var n := |qs| - 1;
      EnvChangesBehind(ps, qs[..n]);
      assert (ps + qs)[..|ps| + n] == ps + qs[..n];
    }
  }

  lemma ContentBehind(ps: seq<Pending>, qs: seq<Pending>, content: Content)
    ensures NewContent(ps + qs, content) == NewContent(ps, NewContent(qs, content))
  {
    var n, m := FirstContent(ps), FirstContent(qs);
    forall i | 0 <= i < n ensures (ps + qs)[i].EnvChange? { assert (ps + qs)[i] == ps[i]; }
    if n < |ps| {
      FirstContentIs(ps + qs, n);
    } else {
      forall i | n <= i < n + m ensures (ps + qs)[i].EnvChange? { assert (ps + qs)[i] == qs[i - n]; }
      FirstContentIs(ps + qs, n + m);
    }
  }

  /** What is pending once a redeploy has added its changes: the content that was pending before,
      if there was one, and the override changes of both. */
  lemma BehindPending(s: StackState, current: seq<Dto>, content: Content, target: seq<Dto>)
    requires DistinctNames(content.envs)
    ensures var qs := RedeployChanges(s, current, content, target);
            && EnvChanges(qs) == Diff(current, target)
            && EnvChanges(s.pending + qs) == EnvChanges(s.pending) + Diff(current, target)
            && NewContent(qs, s.content) == content
            && NewContent(s.pending + qs, s.content) == NewContent(s.pending, content)
  {
    var qs := RedeployChanges(s, current, content, target);
    RedeployPending(s, current, content, target);
    EnvChangesBehind(s.pending, qs);
    ContentBehind(s.pending, qs, s.content);
  }

  lemma DeploysNewContent(s: StackState, gen: string -> Value, shared: map<string, Value>)
    requires ValidTable(s.table)
    ensures var d := Deployed(s, gen, shared); d.Some? ==> d.value.content == NewContent(s.pending, s.content)
  {}

  ghost predicate Restores(d: Option<StackState>, content: Content, goal: map<nat, Entry>)
    requires UniqueKeys(goal)
  {
    && d.Some? && d.value.content == content
    && UniqueKeys(d.value.table.rows) && OverrideMap(d.value.table.rows) == OverrideMap(goal)
  }

  /** An exposed value that the compiler took to be new meets the row that has its name. */
  lemma MissedNameCollides(u: Table, envs: seq<EnvVar>, seen: map<string, Value>, gen: string -> Value,
                           shared: map<string, Value>, i: nat)
    requires ValidTable(u) && i < |envs| && envs[i].key !in seen && HasKey(u.rows, envs[i].key)
    requires IsTemplate(envs[i].value) || "__" <= envs[i].key
    ensures ApplyAll(u, Adds(NewEntries(envs, seen, gen, shared))).None?
  {
    var es := NewEntries(envs, seen, gen, shared);
    IsNewEntry(envs, seen, gen, shared, i);
    var j :| 0 <= j < |es| && es[j].key == envs[i].key;
    AddsCollide(u, es, j);
  }

  lemma CompleteAddsNothing(u: Table, envs: seq<EnvVar>, seen: map<string, Value>, gen: string -> Value,
                            shared: map<string, Value>)
    requires Complete(envs, seen)
    ensures ApplyAll(u, Adds(NewEntries(envs, seen, gen, shared))) == Some(u)
  {
    CompleteExposesNothing(envs, seen, gen, shared);
  }

  /** With the rows restored, compiling for them goes through exactly if the compiler, which replays
      the changes over them once more, still sees every name it would generate a value for. */
  lemma CompilesIff(u: Table, envs: seq<EnvVar>, seen: map<string, Value>, gen: string -> Value,
                    shared: map<string, Value>)
    requires ValidTable(u) && Complete(envs, OverrideMap(u.rows))
    ensures var v := ApplyAll(u, Adds(NewEntries(envs, seen, gen, shared)));
            (v.Some? <==> Complete(envs, seen)) && (v.Some? ==> v == Some(u))
  {
    if Complete(envs, seen) {
      CompleteAddsNothing(u, envs, seen, gen, shared);
    } else {
      var i :| 0 <= i < |envs| && (IsTemplate(envs[i].value) || "__" <= envs[i].key) && envs[i].key !in seen;
      OverrideMapIs(u.rows, envs[i].key);
      MissedNameCollides(u, envs, seen, gen, shared, i);
    }
  }

  lemma DeployedRestoresIff(s: StackState, u: Table, content: Content, goal: map<nat, Entry>, gen: string -> Value,
                            shared: map<string, Value>)
    requires ValidTable(s.table) && ApplyAll(s.table, EnvChanges(s.pending)) == Some(u) && ValidTable(u)
    requires UniqueKeys(goal) && OverrideMap(u.rows) == OverrideMap(goal)
    requires NewContent(s.pending, s.content) == content && Complete(content.envs, OverrideMap(goal))
    ensures Restores(Deployed(s, gen, shared), content, goal)
            <==> Complete(content.envs, Replay(OverrideMap(goal), EnvChanges(s.pending)))
  {
    var seen := Seen(u, EnvChanges(s.pending));
    CompilesIff(u, content.envs, seen, gen, shared);
    assert Deployed(s, gen, shared) == Compiled(s, u, gen, shared);
  }

  lemma RestoringNeeds(r: StackState, content: Content, goal: map<nat, Entry>, gen: string -> Value,
                       shared: map<string, Value>)
    requires ValidTable(r.table) && UniqueKeys(goal) && Restores(Deployed(r, gen, shared), content, goal)
    ensures ApplyAll(r.table, EnvChanges(r.pending)).Some? && NewContent(r.pending, r.content) == content
  {
    DeploysNewContent(r, gen, shared);
  }

  lemma RestoringIff(r: StackState, cs: seq<Change>, content: Content, goal: map<nat, Entry>, gen: string -> Value,
                     shared: map<string, Value>)
    requires ValidTable(r.table) && UniqueKeys(goal) && Complete(content.envs, OverrideMap(goal))
    requires cs == EnvChanges(r.pending)
    requires var u := ApplyAll(r.table, cs);
             u.Some? ==> ValidTable(u.value) && OverrideMap(u.value.rows) == OverrideMap(goal)
    ensures Restores(Deployed(r, gen, shared), content, goal) <==>
              && ApplyAll(r.table, cs).Some? && NewContent(r.pending, r.content) == content
              && Complete(content.envs, Replay(OverrideMap(goal), cs))
  {
    var u := ApplyAll(r.table, cs);
    if u.Some? && NewContent(r.pending, r.content) == content {
      DeployedRestoresIff(r, u.value, content, goal, gen, shared);
    } else if Restores(Deployed(r, gen, shared), content, goal) {
      RestoringNeeds(r, content, goal, gen, shared);
    }
  }

  lemma BalancedRows(t: Table, cs: seq<Change>, current: seq<Dto>, target: seq<Dto>)
    requires ValidTable(t) && WellFormed(t, cs) && Lists(current, t.rows)
    requires DistinctIds(target) && UniqueKeys(ById(target)) && Balanced(cs, ById(target))
    ensures var u := ApplyAll(t, cs + Diff(current, target));
            u.Some? ==> ValidTable(u.value) && OverrideMap(u.value.rows) == OverrideMap(ById(target))
  {
    var u := ApplyAll(t, cs + Diff(current, target));
    if u.Some? {
      RowsComeBackIff(t, cs, current, target, u.value);
      ApplyAllKeepsUnique(t, cs + Diff(current, target));
    }
  }

  lemma RequestOverPending(s: StackState, current: seq<Dto>, content: Content, target: seq<Dto>, cs: seq<Change>)
    returns (r: StackState)
    requires DistinctNames(content.envs) && cs == EnvChanges(s.pending) + Diff(current, target)
    ensures r == s.(pending := s.pending + RedeployChanges(s, current, content, target)) && r.table == s.table
    ensures EnvChanges(r.pending) == cs && NewContent(r.pending, r.content) == NewContent(s.pending, content)
  {
    BehindPending(s, current, content, target);
    r := s.(pending := s.pending + RedeployChanges(s, current, content, target));
  }

  /** A redeploy over pending changes that bring what they take restores the snapshot exactly when
      all changes go through one after the other, a content that was pending is the snapshot's,
      and the replay of the changes over the snapshot's values hides no name the content generates
      a value for. */
  lemma RedeployOverPendingIff(s: StackState, current: seq<Dto>, content: Content, target: seq<Dto>,
                               gen: string -> Value, shared: map<string, Value>)
    requires Sound(s) && Lists(current, s.table.rows)
    requires DistinctIds(target) && UniqueKeys(ById(target)) && DistinctNames(content.envs)
    requires Complete(content.envs, OverrideMap(ById(target))) && Balanced(EnvChanges(s.pending), ById(target))
    ensures var all := EnvChanges(s.pending) + Diff(current, target);
            var d := Deployed(s.(pending := s.pending + RedeployChanges(s, current, content, target)), gen, shared);
            Restores(d, content, ById(target)) <==>
              && ApplyAll(s.table, all).Some? && NewContent(s.pending, content) == content
              && Complete(content.envs, Replay(OverrideMap(ById(target)), all))
  {
    var cs, goal := EnvChanges(s.pending) + Diff(current, target), ById(target);
    BalancedRows(s.table, EnvChanges(s.pending), current, target);
    var r := RequestOverPending(s, current, content, target, cs);
    RestoringIff(r, cs, content, goal, gen, shared);
  }

  // ---------------------------------------------------------------- a deletion that stays

  lemma {:induction false} NothingEdited(rows: seq<Dto>, goal: map<nat, Entry>)
    requires forall i :: 0 <= i < |rows| ==> rows[i].id in goal && goal[rows[i].id] == rows[i].entry
    ensures EditsFor(rows, goal) == [] && Missing(rows, goal) == []
  {
    if rows != [] { NothingEdited(rows[1..], goal); }
  }

  /** Redeploying the snapshot the stack is at now adds nothing: it deploys what is pending. */
  lemma RedeployOfNowIsDeploy(s: StackState, rows: seq<Dto>, gen: string -> Value, shared: map<string, Value>)
    requires ValidState(s) && Lists(rows, s.table.rows)
    ensures Deployed(s.(pending := s.pending + RedeployChanges(s, rows, s.content, rows)), gen, shared)
         == Deployed(s, gen, shared)
  {
    forall i | 0 <= i < |rows| ensures rows[i].id in s.table.rows && s.table.rows[rows[i].id] == rows[i].entry {
      ListsEntry(rows, s.table.rows, i);
    }
    NothingEdited(rows, ById(rows));
    assert RedeployChanges(s, rows, s.content, rows) == [];
    assert s.pending + [] == s.pending;
  }

  lemma OneDelete(t: Table, id: nat, row: Entry)
    requires t.rows == map[id := row] && id < t.next
    ensures EnvChanges([EnvChange(Delete(id, row))]) == [Delete(id, row)]
    ensures WellFormed(t, [Delete(id, row)]) && ApplyAll(t, [Delete(id, row)]) == Some(Table(map[], t.next))
  {
    assert [EnvChange(Delete(id, row))][..0] == [];
    assert ApplyAll(Table(map[], t.next), []) == Some(Table(map[], t.next));
  }

  /** Content without variables adds no row. */
  lemma NothingGenerated(s: StackState, u: Table, gen: string -> Value, shared: map<string, Value>)
    requires Sound(s) && ApplyAll(s.table, EnvChanges(s.pending)) == Some(u)
    requires NewContent(s.pending, s.content).envs == []
    ensures Deployed(s, gen, shared).Some? && Deployed(s, gen, shared).value.table.rows == u.rows
  {
    DeployStoresWhatItGenerates(s, gen, shared);
    CompleteDeployAddsNothing(s, u, Deployed(s, gen, shared).value, gen, shared);
  }

  /** So a pending deletion keeps a row of the snapshot from coming back. */
  lemma PendingDeleteSurvivesRedeploy(s: StackState, row: Entry, gen: string -> Value, shared: map<string, Value>)
    requires s == StackState(Table(map[0 := row], 1), Content([], []), map[], [EnvChange(Delete(0, row))])
    ensures var rows := [Dto(0, row)];
            && Sound(s) && Lists(rows, s.table.rows)
            && var d := Deployed(s.(pending := s.pending + RedeployChanges(s, rows, s.content, rows)), gen, shared);
               d.Some? && d.value.table.rows == map[]
  {
    var rows := [Dto(0, row)];
    ByIdHolds(rows, 0);
    assert ById(rows) == s.table.rows;
    OneDelete(s.table, 0, row);
    RedeployOfNowIsDeploy(s, rows, gen, shared);
    NothingGenerated(s, Table(map[], 1), gen, shared);
  }

  // ---------------------------------------------------------------- a name that is hidden

  /** The changes of a row that is deleted and of another that takes its name, pending, and what
      a redeploy of the state they lead to adds to them: the same rename, and the same deletion
      after it. */
  lemma SwapChanges(c: Entry, k: Entry, k': Entry, cs: seq<Change>, current: seq<Dto>, target: seq<Dto>)
    requires c.key != k.key && k'.key == k.key
    requires cs == [Delete(1, k), Update(0, c, k')] && current == [Dto(0, c), Dto(1, k)] && target == [Dto(0, k')]
    ensures DistinctIds(current) && ById(current) == map[0 := c, 1 := k] && ById(target) == map[0 := k']
    ensures Diff(current, target) == [Update(0, c, k'), Delete(1, k)]
  {
    assert current[..1] == [Dto(0, c)] && current[..1][..0] == [] && target[..0] == [];
    assert ById(current[..1]) == map[0 := c];
    assert current[1..] == [Dto(1, k)] && current[1..][1..] == [] && target[1..] == [];
    assert EditsFor(current[1..], ById(target)) == [Delete(1, k)] + EditsFor([], ById(target));
    assert ById(target) == map[0 := k'] && Missing(target, ById(current)) == [];
    assert EditsFor(current, ById(target)) == [Update(0, c, k')] + EditsFor(current[1..], ById(target));
  }

  lemma TwoChanges(t: Table, a: Change, b: Change, u: Table, v: Table)
    requires Applied(t, a) == Some(u) && Applied(u, b) == Some(v)
    ensures ApplyAll(t, [a, b]) == Some(v)
  {
    assert [a, b][1..] == [b] && [b][1..] == [];
    assert ApplyAll(v, []) == Some(v) && ApplyAll(u, [b]) == Some(v);
  }

  lemma SwapGoesThrough(t: Table, c: Entry, k: Entry, k': Entry)
    requires c.key != k.key && k'.key == k.key && t.rows == map[0 := c, 1 := k]
    ensures ApplyAll(t, [Delete(1, k), Update(0, c, k')]) == Some(Table(map[0 := k'], t.next))
    ensures ApplyAll(Table(map[0 := k'], t.next), [Update(0, c, k'), Delete(1, k)]) == Some(Table(map[0 := k'], t.next))
  {
    var m, u := Table(map[0 := c], t.next), Table(map[0 := k'], t.next);
    assert t.rows - {1} == m.rows && m.rows[0 := k'] == u.rows && u.rows[0 := k'] == u.rows && u.rows - {1} == u.rows;
    TwoChanges(t, Delete(1, k), Update(0, c, k'), m, u);
    TwoChanges(u, Update(0, c, k'), Delete(1, k), u, u);
  }

  lemma LastDeleteHides(m: map<string, Value>, cs: seq<Change>)
    requires cs != [] && cs[|cs| - 1].Delete?
    ensures cs[|cs| - 1].was.key !in Replay(m, cs)
  {
    ReplayAt(m, cs, cs[|cs| - 1].was.key);
  }

  /** What a deletion and a rename to the deleted name, both pending, mean for the state they lead to. */
  lemma SwapIsBalanced(t: Table, c: Entry, k: Entry, k': Entry, cs: seq<Change>)
    requires c.key != k.key && k'.key == k.key
    requires t == Table(map[0 := c, 1 := k], 2) && cs == [Delete(1, k), Update(0, c, k')]
    ensures WellFormed(t, cs) && Balanced(cs, map[0 := k']) && UniqueKeys(map[0 := k'])
  {}

  lemma {:induction false} NameIsHidden(goal: map<nat, Entry>, k: Entry, k': Entry, template: Value, cs: seq<Change>)
    requires goal == map[0 := k'] && UniqueKeys(goal) && k'.key == k.key && IsTemplate(template)
    requires cs != [] && cs[|cs| - 1] == Delete(1, k)
    ensures Complete([EnvVar(k.key, template)], OverrideMap(goal))
    ensures !Complete([EnvVar(k.key, template)], Replay(OverrideMap(goal), cs))
  {
    assert goal[0].key == k.key;
    OverrideMapIs(goal, k.key);
    LastDeleteHides(OverrideMap(goal), cs);
    assert [EnvVar(k.key, template)][0].key == k.key;
  }

  /** Even so balanced a redeploy can fail: every change goes through, but the compiler replays the
      late deletion over the new row of that name, generates a value for the name again, and the
      database refuses it. */
  lemma LateDeleteHidesName(s: StackState, c: Entry, k: Entry, k': Entry, template: Value, gen: string -> Value,
                            shared: map<string, Value>)
    requires c.key != k.key && k'.key == k.key && IsTemplate(template)
    requires s.table == Table(map[0 := c, 1 := k], 2) && s.content == Content([EnvVar(k.key, template)], [])
    requires EnvChanges(s.pending) == [Delete(1, k), Update(0, c, k')] && ValidState(s)
    ensures var current, target := [Dto(0, c), Dto(1, k)], [Dto(0, k')];
            var content := s.content;
            var d := Deployed(s.(pending := s.pending + RedeployChanges(s, current, content, target)), gen, shared);
            && Sound(s) && Lists(current, s.table.rows) && DistinctIds(target) && UniqueKeys(ById(target))
            && Balanced(EnvChanges(s.pending), ById(target)) && Complete(content.envs, OverrideMap(ById(target)))
            && ApplyAll(s.table, EnvChanges(s.pending) + Diff(current, target)).Some?
            && !Restores(d, content, ById(target))
  {
    var current, target, cs := [Dto(0, c), Dto(1, k)], [Dto(0, k')], EnvChanges(s.pending);
    SwapChanges(c, k, k', cs, current, target);
    SwapGoesThrough(s.table, c, k, k');
    SwapIsBalanced(s.table, c, k, k', cs);
    ApplyConcat(s.table, cs, Diff(current, target));
    NameIsHidden(ById(target), k, k', template, cs + Diff(current, target));
    RedeployOverPendingIff(s, current, s.content, target, gen, shared);
  }
}
