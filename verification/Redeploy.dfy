/** Redeploying an earlier deployment: the difference of two snapshots as a list of changes
    (backend/compose/views/stacks.py), and what applying that list gives. */
module Redeploy {
  import opened Text
  import opened Values
  import opened Overrides

  /** One override of a snapshot. */
  datatype Dto = Dto(id: nat, entry: Entry)

  ghost predicate DistinctIds(s: seq<Dto>) {
    forall i, j :: 0 <= i < j < |s| ==> s[i].id != s[j].id
  }

  ghost predicate HasId(s: seq<Dto>, id: nat) {
    exists i :: 0 <= i < |s| && s[i].id == id
  }

  lemma HasIdSnoc(s: seq<Dto>, id: nat)
    requires s != []
    ensures HasId(s, id) <==> HasId(s[..|s| - 1], id) || s[|s| - 1].id == id
  {
    var n := |s| - 1;
    if HasId(s[..n], id) {
      var i :| 0 <= i < n && s[..n][i].id == id;
      assert s[i].id == id;
    }
    if HasId(s, id) && s[n].id != id {
      var i :| 0 <= i < |s| && s[i].id == id;
      assert s[..n][i].id == id;
    }
  }

  /** `{item.id: item for item in env_overrides}` */
  function ById(s: seq<Dto>): map<nat, Entry> {
    if s == [] then map[] else ById(s[..|s| - 1])[s[|s| - 1].id := s[|s| - 1].entry]
  }

  lemma {:induction false} ByIdHas(s: seq<Dto>, id: nat)
    ensures id in ById(s) <==> HasId(s, id)
  {
    if s != [] {
      ByIdHas(s[..|s| - 1], id);
      HasIdSnoc(s, id);
    }
  }

  lemma {:induction false} ByIdHolds(s: seq<Dto>, i: nat)
    requires DistinctIds(s) && i < |s|
    ensures s[i].id in ById(s) && ById(s)[s[i].id] == s[i].entry
  {
    if i < |s| - 1 {
      assert s[i].id != s[|s| - 1].id;
      ByIdHolds(s[..|s| - 1], i);
    }
  }

  /** DELETE what the target lacks, UPDATE what differs. */
  function EditsFor(current: seq<Dto>, target: map<nat, Entry>): seq<Change> {
    if current == [] then []
    else
      var d := current[0];
      (if d.id !in target then [Delete(d.id, d.entry)]
       else if d.entry != target[d.id] then [Update(d.id, d.entry, target[d.id])]
       else []) + EditsFor(current[1..], target)
  }

  /** The entries the current table has no row for. */
  function Missing(target: seq<Dto>, current: map<nat, Entry>): seq<Entry> {
    if target == [] then []
    else (if target[0].id !in current then [target[0].entry] else []) + Missing(target[1..], current)
  }

  function Adds(es: seq<Entry>): seq<Change> {
    if es == [] then [] else [Add(es[0])] + Adds(es[1..])
  }

  function Diff(current: seq<Dto>, target: seq<Dto>): seq<Change> {
    EditsFor(current, ById(target)) + Adds(Missing(target, ById(current)))
  }

  lemma {:induction false} EditsSnoc(s: seq<Dto>, d: Dto, target: map<nat, Entry>)
    ensures EditsFor(s + [d], target) == EditsFor(s, target) + EditsFor([d], target)
  {
    if s == [] {
      assert [] + [d] == [d];
    } else {
      assert (s + [d])[1..] == s[1..] + [d];
      EditsSnoc(s[1..], d, target);
    }
  }

  lemma {:induction false} MissingSnoc(s: seq<Dto>, d: Dto, current: map<nat, Entry>)
    ensures Missing(s + [d], current) == Missing(s, current) + Missing([d], current)
  {
    if s == [] {
      assert [] + [d] == [d];
    } else {
      assert (s + [d])[1..] == s[1..] + [d];
      MissingSnoc(s[1..], d, current);
    }
  }

  lemma {:induction false} AddsConcat(a: seq<Entry>, b: seq<Entry>)
    ensures Adds(a + b) == Adds(a) + Adds(b)
  {
    if a == [] {
      assert a + b == b;
    } else {
      assert (a + b)[1..] == a[1..] + b;
      AddsConcat(a[1..], b);
    }
  }

  lemma AddsSnoc(s: seq<Dto>, d: Dto, current: map<nat, Entry>)
    ensures Adds(Missing(s + [d], current)) == Adds(Missing(s, current)) + Adds(Missing([d], current))
  {
    MissingSnoc(s, d, current);
    AddsConcat(Missing(s, current), Missing([d], current));
  }

  /** The loops of the redeploy view that fill `new_changes`. */
  method NewChanges(current: seq<Dto>, target: seq<Dto>) returns (changes: seq<Change>)
    ensures changes == Diff(current, target)
  {
    var currentEnvs, targetEnvs := ById(current), ById(target);
    changes := [];
    for i := 0 to |current|
      invariant changes == EditsFor(current[..i], targetEnvs)
    {
      var item := current[i];
      if item.id !in targetEnvs {
        changes := changes + [Delete(item.id, item.entry)];
      } else if item.entry != targetEnvs[item.id] {
        changes := changes + [Update(item.id, item.entry, targetEnvs[item.id])];
      }
      EditsSnoc(current[..i], item, targetEnvs);
      assert current[..i + 1] == current[..i] + [item];
    }
    assert current[..|current|] == current;
    changes := AppendMissing(changes, target, currentEnvs);
  }

  method AppendMissing(edits: seq<Change>, target: seq<Dto>, currentEnvs: map<nat, Entry>)
    returns (changes: seq<Change>)
    ensures changes == edits + Adds(Missing(target, currentEnvs))
  {
    changes := edits;
    for i := 0 to |target|
      invariant changes == edits + Adds(Missing(target[..i], currentEnvs))
    {
      var item := target[i];
      if item.id !in currentEnvs {
        changes := changes + [Add(item.entry)];
      }
      AddsSnoc(target[..i], item, currentEnvs);
      assert target[..i + 1] == target[..i] + [item];
      assert Missing([item], currentEnvs) == if item.id !in currentEnvs then [item.entry] else [];
    }
    assert target[..|target|] == target;
  }

  // ---------------------------------------------------------------- the edits

  /** A row that keeps its id but is renamed takes a key that a later row still has. */
  ghost predicate NoKeyTakenEarly(current: seq<Dto>, target: map<nat, Entry>) {
    forall i, j :: 0 <= i < j < |current| && current[i].id in target ==>
      target[current[i].id].key != current[j].entry.key
  }

  /** Rows still to be edited stand as in `rest`; all others are as in the target. */
  ghost predicate HalfEdited(rows: map<nat, Entry>, rest: seq<Dto>, target: map<nat, Entry>) {
    && (forall i :: 0 <= i < |rest| ==> rest[i].id in rows && rows[rest[i].id] == rest[i].entry)
    && (forall id :: id in rows && !HasId(rest, id) ==> id in target && rows[id] == target[id])
  }

  lemma HasIdTail(s: seq<Dto>, id: nat)
    requires s != []
    ensures HasId(s, id) <==> s[0].id == id || HasId(s[1..], id)
  {
    if HasId(s[1..], id) {
      var i :| 0 <= i < |s[1..]| && s[1..][i].id == id;
      assert s[i + 1].id == id;
    }
    if HasId(s, id) && s[0].id != id {
      var i :| 0 <= i < |s| && s[i].id == id;
      assert s[1..][i - 1].id == id;
    }
  }

  /** What the edits leave: the rows both sides have, as the target has them. */
  function Common(rows: map<nat, Entry>, target: map<nat, Entry>): map<nat, Entry> {
    map id | id in rows && id in target :: target[id]
  }

  lemma FirstEditFailsIff(t: Table, rest: seq<Dto>, target: map<nat, Entry>)
    requires rest != [] && DistinctIds(rest) && HalfEdited(t.rows, rest, target)
    requires UniqueKeys(t.rows) && UniqueKeys(target)
    requires rest[0].id in target
    ensures KeyTaken(t.rows, target[rest[0].id].key, rest[0].id)
            <==> exists j :: 1 <= j < |rest| && rest[j].entry.key == target[rest[0].id].key
  {
    var id, k := rest[0].id, target[rest[0].id].key;
    if KeyTaken(t.rows, k, id) {
      var j :| j in t.rows && j != id && t.rows[j].key == k;
      assert HasId(rest, j);
      var m :| 0 <= m < |rest| && rest[m].id == j;
      assert rest[m].entry.key == k && m != 0;
    }
    if exists j :: 1 <= j < |rest| && rest[j].entry.key == k {
      var j :| 1 <= j < |rest| && rest[j].entry.key == k;
      assert rest[j].id in t.rows && rest[j].id != id;
    }
  }

  lemma HalfEditedTail(rows: map<nat, Entry>, rest: seq<Dto>, target: map<nat, Entry>, rows': map<nat, Entry>)
    requires rest != [] && DistinctIds(rest) && HalfEdited(rows, rest, target)
    requires var d := rest[0]; rows' == if d.id in target then rows[d.id := target[d.id]] else rows - {d.id}
    ensures HalfEdited(rows', rest[1..], target) && Common(rows', target) == Common(rows, target)
    ensures DistinctIds(rest[1..])
  {
    forall i | 0 <= i < |rest[1..]| ensures rest[1..][i].id in rows' && rows'[rest[1..][i].id] == rest[1..][i].entry {
      assert rest[i + 1].id != rest[0].id;
    }
    forall id | id in rows' && !HasId(rest[1..], id) ensures id in target && rows'[id] == target[id] {
      HasIdTail(rest, id);
    }
  }

  lemma EarlyTail(rest: seq<Dto>, target: map<nat, Entry>)
    requires rest != []
    ensures NoKeyTakenEarly(rest, target) <==>
            NoKeyTakenEarly(rest[1..], target)
            && (rest[0].id in target ==> forall j :: 1 <= j < |rest| ==> rest[j].entry.key != target[rest[0].id].key)
  {
    if NoKeyTakenEarly(rest, target) {
      forall i, j | 0 <= i < j < |rest[1..]| && rest[1..][i].id in target
        ensures target[rest[1..][i].id].key != rest[1..][j].entry.key
      {
        assert rest[1..][i] == rest[i + 1] && rest[1..][j] == rest[j + 1];
      }
    }
    if NoKeyTakenEarly(rest[1..], target)
       && (rest[0].id in target ==> forall j :: 1 <= j < |rest| ==> rest[j].entry.key != target[rest[0].id].key) {
      forall i, j | 0 <= i < j < |rest| && rest[i].id in target
        ensures target[rest[i].id].key != rest[j].entry.key
      {
        if i > 0 { assert rest[1..][i - 1] == rest[i] && rest[1..][j - 1] == rest[j]; }
      }
    }
  }

  /** The edits go through exactly when no renamed row takes the key of a row edited later, and
      then every common row has its target value. */
  lemma {:induction false} EditsApply(t: Table, rest: seq<Dto>, target: map<nat, Entry>)
    requires DistinctIds(rest) && HalfEdited(t.rows, rest, target)
    requires UniqueKeys(t.rows) && UniqueKeys(target) && forall id :: id in t.rows ==> id < t.next
    ensures ApplyAll(t, EditsFor(rest, target)) ==
            if NoKeyTakenEarly(rest, target) then Some(Table(Common(t.rows, target), t.next)) else None
    decreases |rest|
  {
    if rest == [] {
      assert forall id :: id in t.rows ==> !HasId(rest, id);
      assert Common(t.rows, target) == t.rows;
    } else {
      var d := rest[0];
      EarlyTail(rest, target);
      var edits := EditsFor(rest[1..], target);
      if d.id !in target {
        var u := Table(t.rows - {d.id}, t.next);
        HalfEditedTail(t.rows, rest, target, u.rows);
        EditsApply(u, rest[1..], target);
        assert EditsFor(rest, target)[1..] == edits;
      } else {
        FirstEditFailsIff(t, rest, target);
        var u := Table(t.rows[d.id := target[d.id]], t.next);
        HalfEditedTail(t.rows, rest, target, u.rows);
        if d.entry != target[d.id] {
          assert EditsFor(rest, target)[0] == Update(d.id, d.entry, target[d.id]);
          assert EditsFor(rest, target)[1..] == edits;
          if !KeyTaken(t.rows, target[d.id].key, d.id) {
            AppliedKeepsUnique(t, EditsFor(rest, target)[0]);
            EditsApply(u, rest[1..], target);
          }
        } else {
          assert u == t && EditsFor(rest, target) == edits;
          EditsApply(t, rest[1..], target);
          KeptRowTakesNothing(t.rows, rest, target);
        }
      }
    }
  }

  lemma KeptRowTakesNothing(rows: map<nat, Entry>, rest: seq<Dto>, target: map<nat, Entry>)
    requires rest != [] && DistinctIds(rest) && HalfEdited(rows, rest, target) && UniqueKeys(rows)
    requires rest[0].id in target && rest[0].entry == target[rest[0].id]
    ensures forall j :: 1 <= j < |rest| ==> rest[j].entry.key != target[rest[0].id].key
  {
    forall j | 1 <= j < |rest| ensures rest[j].entry.key != target[rest[0].id].key {
      assert rest[0].id != rest[j].id && rest[0].id in rows && rest[j].id in rows;
    }
  }

  // ---------------------------------------------------------------- the additions

  ghost predicate DistinctKeys(es: seq<Entry>) {
    forall i, j :: 0 <= i < j < |es| ==> es[i].key != es[j].key
  }

  ghost predicate HasEntry(rows: map<nat, Entry>, e: Entry) {
    exists id :: id in rows && rows[id] == e
  }

  /** `u` has the rows of `t` as they were, and one new row for each entry of `es`. */
  ghost predicate Extended(t: Table, es: seq<Entry>, u: Table) {
    && UniqueKeys(u.rows)
    && (forall id :: id in t.rows ==> id in u.rows && u.rows[id] == t.rows[id])
    && (forall e :: e in es ==> HasEntry(u.rows, e))
    && (forall id :: id in u.rows && id !in t.rows ==> u.rows[id] in es)
  }

  lemma ExtendedStep(t: Table, es: seq<Entry>, v: Table, u: Table)
    requires es != [] && v.rows == t.rows[t.next := es[0]]
    requires t.next !in t.rows && Extended(v, es[1..], u)
    ensures Extended(t, es, u)
  {
    forall e | e in es ensures HasEntry(u.rows, e) {
      if e == es[0] { assert u.rows[t.next] == e; } else { assert e in es[1..]; }
    }
  }

  lemma FirstAddFits(t: Table, es: seq<Entry>)
    requires es != [] && DistinctKeys(es) && forall i :: 0 <= i < |es| ==> !HasKey(t.rows, es[i].key)
    ensures Applied(t, Add(es[0])) == Some(Table(t.rows[t.next := es[0]], t.next + 1))
    ensures forall i :: 0 <= i < |es[1..]| ==> !HasKey(t.rows[t.next := es[0]], es[1..][i].key)
  {
    assert !HasKey(t.rows, es[0].key);
    forall i | 0 <= i < |es[1..]| ensures !HasKey(t.rows[t.next := es[0]], es[1..][i].key) {
      assert es[1..][i] == es[i + 1] && es[0].key != es[i + 1].key && !HasKey(t.rows, es[i + 1].key);
    }
  }

  /** Entries with new, distinct keys are all added; rows that were there stay. */
  lemma {:induction false} AddsApply(t: Table, es: seq<Entry>) returns (u: Table)
    requires UniqueKeys(t.rows) && (forall id :: id in t.rows ==> id < t.next)
    requires DistinctKeys(es) && forall i :: 0 <= i < |es| ==> !HasKey(t.rows, es[i].key)
    ensures ApplyAll(t, Adds(es)) == Some(u) && Extended(t, es, u)
    decreases |es|
  {
    if es == [] {
      u := t;
    } else {
      FirstAddFits(t, es);
      AppliedKeepsUnique(t, Add(es[0]));
      var v := Table(t.rows[t.next := es[0]], t.next + 1);
      u := AddsApply(v, es[1..]);
      assert Adds(es)[1..] == Adds(es[1..]);
      ExtendedStep(t, es, v, u);
    }
  }

  lemma {:induction false} MissingIs(target: seq<Dto>, current: map<nat, Entry>, e: Entry)
    ensures e in Missing(target, current)
            <==> exists i :: 0 <= i < |target| && target[i].id !in current && target[i].entry == e
  {
    if target != [] {
      MissingIs(target[1..], current, e);
      if exists i :: 0 <= i < |target[1..]| && target[1..][i].id !in current && target[1..][i].entry == e {
        var i :| 0 <= i < |target[1..]| && target[1..][i].id !in current && target[1..][i].entry == e;
        assert target[i + 1].id !in current && target[i + 1].entry == e;
      }
      if exists i :: 0 <= i < |target| && target[i].id !in current && target[i].entry == e {
        var i :| 0 <= i < |target| && target[i].id !in current && target[i].entry == e;
        if i > 0 { assert target[1..][i - 1] == target[i]; }
      }
    }
  }

  lemma {:induction false} MissingDistinct(target: seq<Dto>, current: map<nat, Entry>)
    requires forall i, j :: 0 <= i < j < |target| ==> target[i].entry.key != target[j].entry.key
    ensures DistinctKeys(Missing(target, current))
  {
    if target != [] {
      MissingDistinct(target[1..], current);
      var rest := Missing(target[1..], current);
      forall i | 0 <= i < |rest| ensures rest[i].key != target[0].entry.key {
        MissingIs(target[1..], current, rest[i]);
        var j :| 0 <= j < |target[1..]| && target[1..][j].entry == rest[i];
        assert target[1..][j] == target[j + 1];
      }
    }
  }

  // ---------------------------------------------------------------- the redeploy theorem

  lemma SameEntriesSameMap(a: map<nat, Entry>, b: map<nat, Entry>)
    requires UniqueKeys(a) && UniqueKeys(b)
    requires forall id :: id in a ==> HasEntry(b, a[id])
    requires forall id :: id in b ==> HasEntry(a, b[id])
    ensures OverrideMap(a) == OverrideMap(b)
  {
    var m, n := OverrideMap(a), OverrideMap(b);
    forall k ensures k in m <==> k in n
    {
      OverrideMapIs(a, k);
      OverrideMapIs(b, k);
    }
    forall k | k in m ensures m[k] == n[k] {
      OverrideMapIs(a, k);
      OverrideMapIs(b, k);
      var i :| i in a && a[i].key == k;
      assert HasEntry(b, a[i]);
    }
  }

  /** A snapshot lists the rows of a table. */
  ghost predicate Lists(s: seq<Dto>, rows: map<nat, Entry>) {
    DistinctIds(s) && ById(s) == rows
  }

  lemma ListsEntry(s: seq<Dto>, rows: map<nat, Entry>, i: nat)
    requires Lists(s, rows) && i < |s|
    ensures s[i].id in rows && rows[s[i].id] == s[i].entry
  {
    ByIdHolds(s, i);
  }

  lemma MissingKeysAreNew(rows: map<nat, Entry>, target: seq<Dto>, goal: map<nat, Entry>)
    requires Lists(target, goal) && UniqueKeys(goal)
    ensures var es := Missing(target, rows);
            DistinctKeys(es) && forall i :: 0 <= i < |es| ==> !HasKey(Common(rows, goal), es[i].key)
  {
    var es := Missing(target, rows);
    forall i, j | 0 <= i < j < |target| ensures target[i].entry.key != target[j].entry.key {
      ListsEntry(target, goal, i);
      ListsEntry(target, goal, j);
      assert target[i].id != target[j].id;
    }
    MissingDistinct(target, rows);
    forall i | 0 <= i < |es| ensures !HasKey(Common(rows, goal), es[i].key) {
      MissingIs(target, rows, es[i]);
      var j :| 0 <= j < |target| && target[j].id !in rows && target[j].entry == es[i];
      ListsEntry(target, goal, j);
    }
  }

  lemma ExtendedIsGoal(rows: map<nat, Entry>, next: nat, target: seq<Dto>, goal: map<nat, Entry>, u: Table)
    requires Lists(target, goal) && UniqueKeys(goal)
    requires Extended(Table(Common(rows, goal), next), Missing(target, rows), u)
    ensures OverrideMap(u.rows) == OverrideMap(goal)
    ensures forall id :: id in rows && id in goal ==> id in u.rows && u.rows[id] == goal[id]
  {
    var t, es := Table(Common(rows, goal), next), Missing(target, rows);
    forall id | id in u.rows ensures HasEntry(goal, u.rows[id]) {
      if id in t.rows {
        assert u.rows[id] == t.rows[id] && t.rows[id] == goal[id];
      } else {
        MissingIs(target, rows, u.rows[id]);
        var j :| 0 <= j < |target| && target[j].id !in rows && target[j].entry == u.rows[id];
        ListsEntry(target, goal, j);
      }
    }
    forall id | id in goal ensures HasEntry(u.rows, goal[id]) {
      if id in rows {
        assert id in t.rows && t.rows[id] == goal[id];
      } else {
        ByIdHas(target, id);
        var j :| 0 <= j < |target| && target[j].id == id;
        ListsEntry(target, goal, j);
        MissingIs(target, rows, goal[id]);
      }
    }
    SameEntriesSameMap(u.rows, goal);
    forall id | id in rows && id in goal ensures id in u.rows && u.rows[id] == goal[id] {
      assert id in t.rows;
    }
  }

  /** Redeploying with no changes pending: the computed changes go through exactly when no row
      that keeps its id is given a key which a later row of the current table still has. When
      they go through, the table holds exactly the target's keys and values, and every row
      present on both sides keeps its id. */
  lemma RedeployRestoresIff(rows: map<nat, Entry>, next: nat, current: seq<Dto>, target: seq<Dto>)
    requires UniqueKeys(rows) && (forall id :: id in rows ==> id < next) && Lists(current, rows)
    requires DistinctIds(target) && UniqueKeys(ById(target))
    ensures var r := ApplyAll(Table(rows, next), Diff(current, target));
            (r.Some? <==> NoKeyTakenEarly(current, ById(target)))
            && (r.Some? ==>
                  && UniqueKeys(r.value.rows)
                  && OverrideMap(r.value.rows) == OverrideMap(ById(target))
                  && forall id :: id in rows && id in ById(target) ==>
                       id in r.value.rows && r.value.rows[id] == ById(target)[id])
  {
    var t, goal := Table(rows, next), ById(target);
    forall i | 0 <= i < |current| ensures current[i].id in rows && rows[current[i].id] == current[i].entry {
      ListsEntry(current, rows, i);
    }
    forall id ensures id in rows <==> HasId(current, id) { ByIdHas(current, id); }
    assert HalfEdited(rows, current, goal);
    EditsApply(t, current, goal);
    ApplyConcat(t, EditsFor(current, goal), Adds(Missing(target, rows)));
    if NoKeyTakenEarly(current, goal) {
      var v := Table(Common(rows, goal), next);
      assert UniqueKeys(v.rows);
      MissingKeysAreNew(rows, target, goal);
      var u := AddsApply(v, Missing(target, rows));
      ExtendedIsGoal(rows, next, target, goal, u);
    }
  }

  /** When entries with the same id keep their key, a redeploy always goes through. */
  lemma KeptKeysRedeploy(rows: map<nat, Entry>, current: seq<Dto>, target: map<nat, Entry>)
    requires UniqueKeys(rows) && Lists(current, rows)
    requires forall id :: id in rows && id in target ==> rows[id].key == target[id].key
    ensures NoKeyTakenEarly(current, target)
  {
    forall i, j | 0 <= i < j < |current| && current[i].id in target
      ensures target[current[i].id].key != current[j].entry.key
    {
      ListsEntry(current, rows, i);
      ListsEntry(current, rows, j);
      assert current[i].id != current[j].id;
    }
  }

  /** Two rows that swapped keys since then cannot be restored: the first rename meets the
      unique constraint. */
  lemma SwappedKeysFail()
    ensures var current := [Dto(0, Entry("A", [Lit("1")])), Dto(1, Entry("B", [Lit("2")]))];
            var target := [Dto(0, Entry("B", [Lit("2")])), Dto(1, Entry("A", [Lit("1")]))];
            !NoKeyTakenEarly(current, ById(target))
            && ApplyAll(Table(ById(current), 2), Diff(current, target)).None?
  {
    var current := [Dto(0, Entry("A", [Lit("1")])), Dto(1, Entry("B", [Lit("2")]))];
    var target := [Dto(0, Entry("B", [Lit("2")])), Dto(1, Entry("A", [Lit("1")]))];
    assert DistinctIds(current) && DistinctIds(target);
    var rows, goal := ById(current), ById(target);
    ListsEntry(current, rows, 0);
    ListsEntry(current, rows, 1);
    ListsEntry(target, goal, 0);
    ListsEntry(target, goal, 1);
    assert forall id :: id in rows ==> id == 0 || id == 1;
    assert forall id :: id in goal ==> id == 0 || id == 1;
    assert goal[current[0].id].key == current[1].entry.key;
    RedeployRestoresIff(rows, 2, current, target);
  }
}
