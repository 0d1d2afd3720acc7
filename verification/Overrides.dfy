/** A stack's environment overrides and the change log that edits them: what applying pending
    changes does to the table, and what the compiler sees when it replays the same changes. */
module Overrides {
  import opened Text
  import opened Values

  datatype Entry = Entry(key: string, value: Value)

  /** `was` is the value the change recorded when it was requested. */
  datatype Change =
    | Add(entry: Entry)
    | Update(id: nat, was: Entry, entry: Entry)
    | Delete(id: nat, was: Entry)

  /** The override rows by id; `next` is an id no row and no change has used yet. */
  datatype Table = Table(rows: map<nat, Entry>, next: nat)

  /** The database's unique (key, stack) constraint: some row other than `id` has this key. */
  predicate KeyTaken(rows: map<nat, Entry>, key: string, id: nat) {
    exists j :: j in rows && j != id && rows[j].key == key
  }

  /** One turn of the loop of `apply_pending_changes`; `None` is an integrity error. */
  function Applied(t: Table, c: Change): Option<Table> {
    match c
    case Add(e) =>
      if KeyTaken(t.rows, e.key, t.next) then None else Some(Table(t.rows[t.next := e], t.next + 1))
    case Update(id, _, e) =>
      if id !in t.rows then Some(t)
      else if KeyTaken(t.rows, e.key, id) then None
      else Some(Table(t.rows[id := e], t.next))
    case Delete(id, _) => Some(Table(t.rows - {id}, t.next))
  }

  function ApplyAll(t: Table, cs: seq<Change>): Option<Table>
    decreases |cs|
  {
    if cs == [] then Some(t)
    else match Applied(t, cs[0])
      case None => None
      case Some(u) => ApplyAll(u, cs[1..])
  }

  lemma {:induction false} ApplyConcat(t: Table, a: seq<Change>, b: seq<Change>)
    ensures ApplyAll(t, a + b) == match ApplyAll(t, a) case None => None case Some(u) => ApplyAll(u, b)
    decreases |a|
  {
    if a == [] {
      assert a + b == b;
    } else {
      assert (a + b)[1..] == a[1..] + b;
      if Applied(t, a[0]).Some? { ApplyConcat(Applied(t, a[0]).value, a[1..], b); }
    }
  }

  // ---------------------------------------------------------------- the override map

  ghost predicate UniqueKeys(rows: map<nat, Entry>) {
    forall i, j :: i in rows && j in rows && rows[i].key == rows[j].key ==> i == j
  }

  /** `{env.key: env.value for env in stack.env_overrides.all()}` */
  function OverrideMap(rows: map<nat, Entry>): (m: map<string, Value>)
    requires UniqueKeys(rows)
  {
    map id | id in rows :: rows[id].key := rows[id].value
  }

  ghost predicate HasKey(rows: map<nat, Entry>, k: string) {
    exists id :: id in rows && rows[id].key == k
  }

  lemma OverrideMapIs(rows: map<nat, Entry>, k: string)
    requires UniqueKeys(rows)
    ensures k in OverrideMap(rows) <==> HasKey(rows, k)
    ensures forall id :: id in rows && rows[id].key == k ==>
            k in OverrideMap(rows) && OverrideMap(rows)[k] == rows[id].value
  {}

  /** One turn of the compiler's loop over the pending changes. */
  function ReplayOne(m: map<string, Value>, c: Change): map<string, Value> {
    match c
    case Delete(_, was) => m - {was.key}
    case Update(_, _, e) => m[e.key := e.value]
    case Add(e) => m[e.key := e.value]
  }

  function Replay(m: map<string, Value>, cs: seq<Change>): map<string, Value>
    decreases |cs|
  {
    if cs == [] then m else Replay(ReplayOne(m, cs[0]), cs[1..])
  }

  // ---------------------------------------------------------------- well-formed change lists

  function Target(c: Change): Option<nat> {
    match c case Add(_) => None case Update(id, _, _) => Some(id) case Delete(id, _) => Some(id)
  }

  ghost predicate TargetsIn(rows: map<nat, Entry>, c: Change) {
    !c.Add? ==> c.id in rows && rows[c.id] == c.was
  }

  /** The changes the change serializer lets through: each names a row of the table with its
      current value, and no row is named twice. */
  ghost predicate WellFormed(t: Table, cs: seq<Change>) {
    && UniqueKeys(t.rows)
    && (forall id :: id in t.rows ==> id < t.next)
    && (forall i :: 0 <= i < |cs| ==> TargetsIn(t.rows, cs[i]))
    && (forall i, j :: 0 <= i < j < |cs| && Target(cs[i]).Some? ==> Target(cs[i]) != Target(cs[j]))
  }

  lemma AppliedKeepsUnique(t: Table, c: Change)
    requires UniqueKeys(t.rows) && (forall id :: id in t.rows ==> id < t.next) && Applied(t, c).Some?
    ensures var u := Applied(t, c).value; UniqueKeys(u.rows) && (forall id :: id in u.rows ==> id < u.next)
  {
    var u := Applied(t, c).value;
    forall i, j | i in u.rows && j in u.rows && u.rows[i].key == u.rows[j].key ensures i == j {
      if c.Add? {
        assert !KeyTaken(t.rows, c.entry.key, t.next);
      } else if c.Update? && c.id in t.rows {
        assert !KeyTaken(t.rows, c.entry.key, c.id);
      }
    }
  }

  lemma WellFormedTail(t: Table, cs: seq<Change>)
    requires WellFormed(t, cs) && cs != [] && Applied(t, cs[0]).Some?
    ensures WellFormed(Applied(t, cs[0]).value, cs[1..])
  {
    AppliedKeepsUnique(t, cs[0]);
    var u := Applied(t, cs[0]).value;
    forall i | 0 <= i < |cs[1..]| ensures TargetsIn(u.rows, cs[1..][i]) {
      assert TargetsIn(t.rows, cs[i + 1]);
      assert Target(cs[0]).Some? ==> Target(cs[0]) != Target(cs[i + 1]);
    }
  }

  /** Some change of `cs` gives key `k` a value. */
  ghost predicate Sets(cs: seq<Change>, k: string) {
    cs != [] && ((!cs[0].Delete? && cs[0].entry.key == k) || Sets(cs[1..], k))
  }

  ghost predicate Names(cs: seq<Change>, id: nat) {
    exists i :: 0 <= i < |cs| && Target(cs[i]) == Some(id)
  }

  /** A row no later change names is still there, unchanged, at the end. */
  lemma {:induction false} UnnamedStays(t: Table, cs: seq<Change>, id: nat)
    requires ApplyAll(t, cs).Some? && id in t.rows && !Names(cs, id)
    requires forall i :: i in t.rows ==> i < t.next
    ensures var u := ApplyAll(t, cs).value; id in u.rows && u.rows[id] == t.rows[id]
    decreases |cs|
  {
    if cs != [] {
      assert Target(cs[0]) != Some(id);
      forall i | 0 <= i < |cs[1..]| ensures Target(cs[1..][i]) != Some(id) {
        assert cs[1..][i] == cs[i + 1];
      }
      UnnamedStays(Applied(t, cs[0]).value, cs[1..], id);
    }
  }

  /** A key the table lacks now and has at the end was set on the way. */
  lemma {:induction false} NewKeyWasSet(t: Table, cs: seq<Change>, k: string)
    requires ApplyAll(t, cs).Some? && !HasKey(t.rows, k) && HasKey(ApplyAll(t, cs).value.rows, k)
    ensures Sets(cs, k)
    decreases |cs|
  {
    if cs == [] {
      assert false;
    } else if cs[0].Delete? || cs[0].entry.key != k {
      NewKeyWasSet(Applied(t, cs[0]).value, cs[1..], k);
    }
  }

  // ---------------------------------------------------------------- replay is a no-op

  /** `m` is part of the final map `f`, and what it lacks is still to be set. */
  ghost predicate Catching(m: map<string, Value>, f: map<string, Value>, cs: seq<Change>) {
    && (forall k :: k in m ==> k in f && m[k] == f[k])
    && (forall k :: k in f && k !in m ==> Sets(cs, k))
  }

  lemma WrittenRowIsFinal(t: Table, cs: seq<Change>) returns (id: nat)
    requires WellFormed(t, cs) && cs != [] && !cs[0].Delete? && ApplyAll(t, cs).Some?
    ensures var u := ApplyAll(t, cs).value; id in u.rows && u.rows[id] == cs[0].entry
  {
    id := if cs[0].Add? then t.next else cs[0].id;
    WellFormedTail(t, cs);
    assert TargetsIn(t.rows, cs[0]);
    var u := Applied(t, cs[0]).value;
    forall i | 0 <= i < |cs[1..]| ensures Target(cs[1..][i]) != Some(id) {
      assert TargetsIn(t.rows, cs[i + 1]);
      assert Target(cs[0]).Some? ==> Target(cs[0]) != Target(cs[i + 1]);
    }
    UnnamedStays(u, cs[1..], id);
  }

  lemma {:induction false} ApplyAllKeepsUnique(t: Table, cs: seq<Change>)
    requires UniqueKeys(t.rows) && (forall id :: id in t.rows ==> id < t.next) && ApplyAll(t, cs).Some?
    ensures var u := ApplyAll(t, cs).value; UniqueKeys(u.rows) && (forall id :: id in u.rows ==> id < u.next)
    decreases |cs|
  {
    if cs != [] {
      AppliedKeepsUnique(t, cs[0]);
      ApplyAllKeepsUnique(Applied(t, cs[0]).value, cs[1..]);
    }
  }

  lemma CatchingStep(t: Table, cs: seq<Change>, m: map<string, Value>, f: map<string, Value>)
    requires WellFormed(t, cs) && cs != [] && ApplyAll(t, cs).Some?
    requires UniqueKeys(ApplyAll(t, cs).value.rows) && f == OverrideMap(ApplyAll(t, cs).value.rows)
    requires Catching(m, f, cs)
    ensures Catching(ReplayOne(m, cs[0]), f, cs[1..])
  {
    var final := ApplyAll(t, cs).value;
    if cs[0].Delete? {
      var k := cs[0].was.key;
      assert TargetsIn(t.rows, cs[0]);
      if k in f {
        OverrideMapIs(final.rows, k);
        NewKeyWasSet(Applied(t, cs[0]).value, cs[1..], k);
      }
    } else {
      var id := WrittenRowIsFinal(t, cs);
      OverrideMapIs(final.rows, cs[0].entry.key);
    }
  }

  lemma {:induction false} ReplayCatchesUp(t: Table, cs: seq<Change>, m: map<string, Value>, f: map<string, Value>)
    requires WellFormed(t, cs) && ApplyAll(t, cs).Some?
    requires UniqueKeys(ApplyAll(t, cs).value.rows) && f == OverrideMap(ApplyAll(t, cs).value.rows)
    requires Catching(m, f, cs)
    ensures Replay(m, cs) == f
    decreases |cs|
  {
    if cs != [] {
      CatchingStep(t, cs, m, f);
      WellFormedTail(t, cs);
      ReplayCatchesUp(Applied(t, cs[0]).value, cs[1..], ReplayOne(m, cs[0]), f);
    }
  }

  /** Compiling after the changes are applied but before they are marked applied replays them
      on a table that has them already; the compiler then sees exactly the table's values. */
  lemma ReplayIsNoOp(t: Table, cs: seq<Change>)
    requires WellFormed(t, cs) && ApplyAll(t, cs).Some?
    ensures UniqueKeys(ApplyAll(t, cs).value.rows)
    ensures var f := OverrideMap(ApplyAll(t, cs).value.rows); Replay(f, cs) == f
  {
    ApplyAllKeepsUnique(t, cs);
    var f := OverrideMap(ApplyAll(t, cs).value.rows);
    ReplayCatchesUp(t, cs, f, f);
  }

  /** What the last change of `cs` that touches key `k` leaves there: a value, or nothing. */
  function LastOn(cs: seq<Change>, k: string): Option<Option<Value>> {
    if cs == [] then None
    else
      var c := cs[|cs| - 1];
      if c.Delete? && c.was.key == k then Some(None)
      else if !c.Delete? && c.entry.key == k then Some(Some(c.entry.value))
      else LastOn(cs[..|cs| - 1], k)
  }

  function At(m: map<string, Value>, k: string): Option<Value> {
    if k in m then Some(m[k]) else None
  }

  lemma {:induction false} ReplayFront(c: Change, cs: seq<Change>, k: string)
    ensures LastOn([c] + cs, k) == if LastOn(cs, k).Some? then LastOn(cs, k) else LastOn([c], k)
  {
    if cs == [] {
      assert [c] + cs == [c];
    } else {
      var n := |cs| - 1;
      ReplayFront(c, cs[..n], k);
      assert ([c] + cs)[..n + 1] == [c] + cs[..n];
    }
  }

  lemma {:induction false} ReplayAt(m: map<string, Value>, cs: seq<Change>, k: string)
    ensures At(Replay(m, cs), k) == if LastOn(cs, k).Some? then LastOn(cs, k).value else At(m, k)
    decreases |cs|
  {
    if cs != [] {
      ReplayAt(ReplayOne(m, cs[0]), cs[1..], k);
      ReplayFront(cs[0], cs[1..], k);
      assert cs == [cs[0]] + cs[1..];
      assert LastOn([cs[0]][..0], k).None?;
    }
  }

  /** Replaying changes leaves an override map as it is exactly when, for each key, the last
      change that sets or deletes the key agrees with the map. */
  lemma ReplayIsNoOpIff(m: map<string, Value>, cs: seq<Change>)
    ensures Replay(m, cs) == m <==> forall k :: LastOn(cs, k).Some? ==> LastOn(cs, k).value == At(m, k)
  {
    var r := Replay(m, cs);
    forall k ensures At(r, k) == if LastOn(cs, k).Some? then LastOn(cs, k).value else At(m, k) { ReplayAt(m, cs, k); }
    if forall k :: LastOn(cs, k).Some? ==> LastOn(cs, k).value == At(m, k) {
      forall k ensures k in r <==> k in m { assert At(r, k) == At(m, k); }
      forall k | k in m ensures r[k] == m[k] { assert At(r, k) == At(m, k); }
    }
  }

  /** With two changes for one row, as a redeploy over pending changes creates, replay shows the
      compiler a value the table does not have. */
  lemma SecondChangeForARowBreaksReplay()
    ensures var t := Table(map[0 := Entry("A", [Lit("1")])], 1);
            var cs := [Delete(0, Entry("A", [Lit("1")])), Update(0, Entry("A", [Lit("1")]), Entry("A", [Lit("3")]))];
            ApplyAll(t, cs) == Some(Table(map[], 1)) && "A" in Replay(map[], cs)
  {
    var cs := [Delete(0, Entry("A", [Lit("1")])), Update(0, Entry("A", [Lit("1")]), Entry("A", [Lit("3")]))];
    assert cs[1..] == [cs[1]] && cs[1..][1..] == [];
    var t := Table(map[0 := Entry("A", [Lit("1")])], 1);
    assert Applied(t, cs[0]) == Some(Table(map[], 1)) by { assert t.rows - {0} == map[]; }
    assert Replay(map[], cs) == Replay(map[] - {"A"}, cs[1..]);
  }

  // ---------------------------------------------------------------- the preview

  /** Every key a rename leaves behind is set again by a later change. */
  ghost predicate NoStrandedKeys(cs: seq<Change>) {
    cs != [] ==>
      && (cs[0].Update? && cs[0].was.key != cs[0].entry.key ==> Sets(cs[1..], cs[0].was.key))
      && NoStrandedKeys(cs[1..])
  }

  ghost predicate Contains(m: map<string, Value>, rows: map<nat, Entry>) {
    forall id :: id in rows ==> rows[id].key in m && m[rows[id].key] == rows[id].value
  }

  /** Every key of the preview that the table lacks is still to be set. */
  ghost predicate ExtrasAreSet(m: map<string, Value>, rows: map<nat, Entry>, cs: seq<Change>) {
    forall k :: k in m && !HasKey(rows, k) ==> Sets(cs, k)
  }

  lemma ContainsStep(t: Table, c: Change, m: map<string, Value>)
    requires WellFormed(t, [c]) && Applied(t, c).Some? && Contains(m, t.rows)
    ensures Contains(ReplayOne(m, c), Applied(t, c).value.rows)
  {
    var u := Applied(t, c).value;
    assert TargetsIn(t.rows, [c][0]);
    forall id | id in u.rows
      ensures u.rows[id].key in ReplayOne(m, c) && ReplayOne(m, c)[u.rows[id].key] == u.rows[id].value
    {
      if c.Add? { assert !KeyTaken(t.rows, c.entry.key, t.next); }
      if c.Update? { assert !KeyTaken(t.rows, c.entry.key, c.id); }
    }
  }

  /** How one change moves keys between table and preview. */
  lemma KeysStep(t: Table, c: Change, m: map<string, Value>, k: string)
    requires WellFormed(t, [c]) && Applied(t, c).Some? && Contains(m, t.rows)
    ensures var u := Applied(t, c).value;
            (k in ReplayOne(m, c) && !HasKey(u.rows, k)) <==>
            ((k in m && !HasKey(t.rows, k) && !(!c.Delete? && c.entry.key == k))
             || (c.Update? && c.was.key == k && c.entry.key != k))
  {
    var u := Applied(t, c).value;
    assert TargetsIn(t.rows, [c][0]);
    match c
    case Add(e) =>
      assert u.rows[t.next] == e;
      forall id | id in t.rows ensures id in u.rows && u.rows[id] == t.rows[id] {}
    case Update(id, was, e) =>
      assert u.rows[id] == e && t.rows[id] == was;
      forall j | j in t.rows && j != id ensures j in u.rows && u.rows[j] == t.rows[j] {}
    case Delete(id, was) =>
      forall j | j in t.rows && j != id ensures j in u.rows && u.rows[j] == t.rows[j] {}
      assert t.rows[id] == was;
  }

  lemma ExtrasStep(t: Table, cs: seq<Change>, m: map<string, Value>)
    requires WellFormed(t, cs) && cs != [] && Applied(t, cs[0]).Some? && Contains(m, t.rows)
    ensures ExtrasAreSet(m, t.rows, cs)
            && (cs[0].Update? && cs[0].was.key != cs[0].entry.key ==> Sets(cs[1..], cs[0].was.key))
            <==> ExtrasAreSet(ReplayOne(m, cs[0]), Applied(t, cs[0]).value.rows, cs[1..])
  {
    var c := cs[0];
    assert WellFormed(t, [c]);
    forall k ensures (k in ReplayOne(m, c) && !HasKey(Applied(t, c).value.rows, k)) <==>
                     ((k in m && !HasKey(t.rows, k) && !(!c.Delete? && c.entry.key == k))
                      || (c.Update? && c.was.key == k && c.entry.key != k)) {
      KeysStep(t, c, m, k);
    }
  }

  lemma {:induction false} PreviewGeneral(t: Table, cs: seq<Change>, m: map<string, Value>)
    requires WellFormed(t, cs) && ApplyAll(t, cs).Some? && UniqueKeys(ApplyAll(t, cs).value.rows)
    requires Contains(m, t.rows)
    ensures Replay(m, cs) == OverrideMap(ApplyAll(t, cs).value.rows)
            <==> ExtrasAreSet(m, t.rows, cs) && NoStrandedKeys(cs)
    decreases |cs|
  {
    if cs == [] {
      var f := OverrideMap(t.rows);
      forall k ensures k in f <==> HasKey(t.rows, k) { OverrideMapIs(t.rows, k); }
      if ExtrasAreSet(m, t.rows, cs) {
        assert forall k :: k in m ==> HasKey(t.rows, k);
        assert m == f;
      }
    } else {
      assert WellFormed(t, [cs[0]]);
      ContainsStep(t, cs[0], m);
      ExtrasStep(t, cs, m);
      WellFormedTail(t, cs);
      PreviewGeneral(Applied(t, cs[0]).value, cs[1..], ReplayOne(m, cs[0]));
    }
  }

  /** The preview compile (pending changes replayed over the table they have not touched yet)
      agrees with what applying them gives exactly when no rename strands its old key. */
  lemma PreviewMatchesIff(t: Table, cs: seq<Change>)
    requires WellFormed(t, cs) && ApplyAll(t, cs).Some?
    ensures UniqueKeys(ApplyAll(t, cs).value.rows)
    ensures Replay(OverrideMap(t.rows), cs) == OverrideMap(ApplyAll(t, cs).value.rows) <==> NoStrandedKeys(cs)
  {
    ApplyAllKeepsUnique(t, cs);
    forall k ensures k in OverrideMap(t.rows) <==> HasKey(t.rows, k) { OverrideMapIs(t.rows, k); }
    PreviewGeneral(t, cs, OverrideMap(t.rows));
  }

  lemma OneChange(t: Table, m: map<string, Value>, c: Change)
    ensures ApplyAll(t, [c]) == Applied(t, c) && Replay(m, [c]) == ReplayOne(m, c)
    ensures NoStrandedKeys([c]) <==> !(c.Update? && c.was.key != c.entry.key)
  {
    assert [c][1..] == [];
  }

  /** A rename strands its old key: the preview still has it, the table will not. */
  lemma RenameStrandsItsKey(v: Value)
    ensures var t := Table(map[0 := Entry("A", v)], 1);
            var cs := [Update(0, Entry("A", v), Entry("B", v))];
            && ApplyAll(t, cs) == Some(Table(map[0 := Entry("B", v)], 1))
            && "A" in Replay(OverrideMap(t.rows), cs) && !NoStrandedKeys(cs)
  {
    var t := Table(map[0 := Entry("A", v)], 1);
    var c := Update(0, Entry("A", v), Entry("B", v));
    OneChange(t, OverrideMap(t.rows), c);
    assert !KeyTaken(t.rows, "B", 0);
    assert t.rows[0 := c.entry] == map[0 := Entry("B", v)];
    assert "A" in OverrideMap(t.rows) by { assert t.rows[0].key == "A"; }
  }
}
