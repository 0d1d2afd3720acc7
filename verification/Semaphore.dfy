/** The cache-backed semaphore of backend/temporal/semaphore.py: a counter guarded by an
    add/delete lock. Every cache operation is one atomic step of one process; an action that
    is not enabled does nothing, so every list of actions is an interleaving. */
module Semaphore {
  import opened Text

  /** What a process asked the semaphore for. */
  datatype Job = Acquire | AcquireAll | Release | Reset

  /** `left` counts the tries that remain; `None` is `max_retries=None`. */
  datatype Pc =
    | Idle
    | Trying(job: Job, left: Option<nat>)
    | Locked(job: Job, left: Option<nat>)
    | Seen(job: Job, left: Option<nat>, count: nat)
    | Unlocking(job: Job, left: Option<nat>, done: bool)

  /** `slots` only observes: how many slots the process has been granted and not given back.
      `got` is what its last `acquire` or `acquire_all` returned. */
  datatype Proc = Proc(pc: Pc, slots: nat, got: bool)

  /** `locked` says whether the lock key is in the cache; `count` is the counter key, 0 when
      absent. `lost` only observes: slots whose release found the lock busy. */
  datatype State = State(locked: bool, count: nat, procs: seq<Proc>, lost: nat)

  datatype Action = Call(p: nat, job: Job, tries: Option<nat>) | Step(p: nat)

  function Init(n: nat): State {
    State(false, 0, seq(n, i => Proc(Idle, 0, false)), 0)
  }

  function Set(s: State, p: nat, q: Proc): State
    requires p < |s.procs|
  {
    s.(procs := s.procs[p := q])
  }

  function Fewer(left: Option<nat>): Option<nat> {
    if left.Some? && left.value > 0 then Some(left.value - 1) else left
  }

  /** Holders lose their slots when the counter is reset. */
  function Revoked(procs: seq<Proc>): (r: seq<Proc>)
    ensures |r| == |procs| && forall i :: 0 <= i < |procs| ==> r[i] == procs[i].(slots := 0)
  {
    if procs == [] then [] else Revoked(procs[..|procs| - 1]) + [procs[|procs| - 1].(slots := 0)]
  }

  /** `release` begins with its one try for the lock: a busy lock loses the slot silently. */
  function TryRelease(s: State, p: nat): State
    requires p < |s.procs| && s.procs[p].slots > 0
  {
    var q := s.procs[p];
    if s.locked then Set(s, p, q.(slots := q.slots - 1)).(lost := s.lost + 1)
    else Set(s, p, q.(pc := Locked(Release, Some(0)))).(locked := true)
  }

  function TryLock(s: State, p: nat, job: Job, left: Option<nat>): State
    requires p < |s.procs|
  {
    var q := s.procs[p];
    if left == Some(0) then Set(s, p, q.(pc := Idle, got := false))
    else if s.locked then Set(s, p, q.(pc := Trying(job, Fewer(left))))
    else Set(s, p, q.(pc := Locked(job, left))).(locked := true)
  }

  /** With the lock held: read the counter, except that `reset` writes without reading. */
  function ReadCount(s: State, p: nat, job: Job, left: Option<nat>): State
    requires p < |s.procs|
  {
    if job.Reset? then
      State(s.locked, 0, Revoked(s.procs)[p := Proc(Unlocking(Reset, left, true), 0, s.procs[p].got)], 0)
    else Set(s, p, s.procs[p].(pc := Seen(job, left, s.count)))
  }

  /** Having read `count`: write the new counter if the job may go ahead. */
  function WriteCount(s: State, p: nat, job: Job, left: Option<nat>, count: nat, limit: nat): State
    requires p < |s.procs|
  {
    var q := s.procs[p];
    match job
    case Acquire =>
      if count < limit then Set(s, p, Proc(Unlocking(job, left, true), q.slots + 1, q.got)).(count := count + 1)
      else Set(s, p, q.(pc := Unlocking(job, left, false)))
    case AcquireAll =>
      if count == 0 then Set(s, p, Proc(Unlocking(job, left, true), q.slots + limit, q.got)).(count := limit)
      else Set(s, p, q.(pc := Unlocking(job, left, false)))
    case Release =>
      if count > 0 then
        Set(s, p, Proc(Unlocking(job, left, true), if q.slots > 0 then q.slots - 1 else 0, q.got)).(count := count - 1)
      else Set(s, p, q.(pc := Unlocking(job, left, true)))
    case Reset => s
  }

  /** The `finally` clause; a job that did not go ahead tries again. */
  function Unlock(s: State, p: nat, job: Job, left: Option<nat>, done: bool): State
    requires p < |s.procs|
  {
    var q := s.procs[p];
    Set(s, p, if done then q.(pc := Idle, got := if job.Acquire? || job.AcquireAll? then true else q.got)
              else q.(pc := Trying(job, Fewer(left)))).(locked := false)
  }

  function StepOf(s: State, p: nat, limit: nat): State
    requires p < |s.procs|
  {
    match s.procs[p].pc
    case Idle => s
    case Trying(job, left) => TryLock(s, p, job, left)
    case Locked(job, left) => ReadCount(s, p, job, left)
    case Seen(job, left, count) => WriteCount(s, p, job, left, count, limit)
    case Unlocking(job, left, done) => Unlock(s, p, job, left, done)
  }

  /** An idle process may call; only a process that holds a slot calls `release`. */
  function CallOf(s: State, p: nat, job: Job, tries: Option<nat>): State
    requires p < |s.procs|
  {
    var q := s.procs[p];
    if !q.pc.Idle? then s
    else match job
      case Release => if q.slots > 0 then TryRelease(s, p) else s
      case Reset => Set(s, p, q.(pc := Trying(Reset, None)))
      case _ => Set(s, p, q.(pc := Trying(job, tries)))
  }

  function Next(s: State, a: Action, limit: nat): State {
    if a.p >= |s.procs| then s
    else match a
      case Call(p, job, tries) => CallOf(s, p, job, tries)
      case Step(p) => StepOf(s, p, limit)
  }

  function Run(s: State, acts: seq<Action>, limit: nat): State {
    if acts == [] then s else Next(Run(s, acts[..|acts| - 1], limit), acts[|acts| - 1], limit)
  }

  lemma {:induction false} RunConcat(s: State, a: seq<Action>, b: seq<Action>, limit: nat)
    ensures Run(s, a + b, limit) == Run(Run(s, a, limit), b, limit)
  {
    if b == [] {
      assert a + b == a;
    } else {
      var n := |b| - 1;
      RunConcat(s, a, b[..n], limit);
      assert (a + b)[..|a + b| - 1] == a + b[..n];
    }
  }

  // ---------------------------------------------------------------- the invariant

  function Held(procs: seq<Proc>): nat {
    if procs == [] then 0 else Held(procs[..|procs| - 1]) + procs[|procs| - 1].slots
  }

  predicate InCritical(q: Proc) { q.pc.Locked? || q.pc.Seen? || q.pc.Unlocking? }

  ghost predicate PcOk(s: State, q: Proc) {
    && (q.pc.Seen? ==> q.pc.count == s.count && !q.pc.job.Reset?)
    && (q.pc.Locked? && q.pc.job.Release? ==> q.slots > 0)
    && (q.pc.Seen? && q.pc.job.Release? ==> q.slots > 0)
    && (q.pc.Unlocking? && q.pc.job.Release? ==> q.pc.done)
    && !(q.pc.Trying? && q.pc.job.Release?)
  }

  /** Mutual exclusion of the critical section, and conservation of slots: the counter is the
      slots held plus the releases that were lost, and never exceeds the limit. */
  ghost predicate Inv(s: State, limit: nat) {
    && (forall i, j :: 0 <= i < j < |s.procs| ==> !(InCritical(s.procs[i]) && InCritical(s.procs[j])))
    && (forall i :: 0 <= i < |s.procs| && InCritical(s.procs[i]) ==> s.locked)
    && (forall i :: 0 <= i < |s.procs| ==> PcOk(s, s.procs[i]))
    && s.count == Held(s.procs) + s.lost
    && s.count <= limit
  }

  lemma {:induction false} HeldUpdate(procs: seq<Proc>, p: nat, q: Proc)
    requires p < |procs|
    ensures Held(procs[p := q]) == Held(procs) - procs[p].slots + q.slots
    ensures procs[p].slots <= Held(procs)
  {
    var n := |procs| - 1;
    if p == n {
      assert procs[p := q][..n] == procs[..n];
    } else {
      assert procs[p := q][..n] == procs[..n][p := q];
      HeldUpdate(procs[..n], p, q);
    }
  }

  lemma {:induction false} HeldNone(procs: seq<Proc>)
    requires forall i :: 0 <= i < |procs| ==> procs[i].slots == 0
    ensures Held(procs) == 0
  {
    if procs != [] { HeldNone(procs[..|procs| - 1]); }
  }

  /** Two different processes' slots together are within the total. */
  lemma HeldTwo(procs: seq<Proc>, p: nat, q: nat)
    requires p < |procs| && q < |procs| && p != q
    ensures procs[p].slots + procs[q].slots <= Held(procs)
  {
    var r := procs[p].(slots := 0);
    HeldUpdate(procs, p, r);
    HeldUpdate(procs[p := r], q, procs[q]);
  }

  lemma InitInv(n: nat, limit: nat)
    ensures Inv(Init(n), limit)
  {
    HeldNone(Init(n).procs);
  }

  lemma CallKeepsInv(s: State, p: nat, job: Job, tries: Option<nat>, limit: nat)
    requires Inv(s, limit) && p < |s.procs|
    ensures Inv(CallOf(s, p, job, tries), limit)
  {
    var s' := CallOf(s, p, job, tries);
    HeldUpdate(s.procs, p, s'.procs[p]);
    assert PcOk(s, s.procs[p]);
  }

  lemma TryLockKeepsInv(s: State, p: nat, limit: nat)
    requires Inv(s, limit) && p < |s.procs| && s.procs[p].pc.Trying?
    ensures Inv(StepOf(s, p, limit), limit)
  {
    assert PcOk(s, s.procs[p]);
    HeldUpdate(s.procs, p, StepOf(s, p, limit).procs[p]);
  }

  lemma ReadKeepsInv(s: State, p: nat, limit: nat)
    requires Inv(s, limit) && p < |s.procs| && s.procs[p].pc.Locked?
    ensures Inv(StepOf(s, p, limit), limit)
  {
    var s' := StepOf(s, p, limit);
    assert PcOk(s, s.procs[p]);
    if s.procs[p].pc.job.Reset? { HeldNone(s'.procs); } else { HeldUpdate(s.procs, p, s'.procs[p]); }
  }

  lemma WriteKeepsInv(s: State, p: nat, limit: nat)
    requires Inv(s, limit) && p < |s.procs| && s.procs[p].pc.Seen?
    ensures Inv(StepOf(s, p, limit), limit)
  {
    var s' := StepOf(s, p, limit);
    assert PcOk(s, s.procs[p]);
    HeldUpdate(s.procs, p, s'.procs[p]);
    forall i | 0 <= i < |s'.procs| ensures PcOk(s', s'.procs[i]) {
      if i != p { assert PcOk(s, s.procs[i]) && !InCritical(s.procs[i]); }
    }
  }

  lemma UnlockKeepsInv(s: State, p: nat, limit: nat)
    requires Inv(s, limit) && p < |s.procs| && s.procs[p].pc.Unlocking?
    ensures Inv(StepOf(s, p, limit), limit)
  {
    assert PcOk(s, s.procs[p]);
    HeldUpdate(s.procs, p, StepOf(s, p, limit).procs[p]);
  }

  lemma StepKeepsInv(s: State, p: nat, limit: nat)
    requires Inv(s, limit) && p < |s.procs|
    ensures Inv(StepOf(s, p, limit), limit)
  {
    match s.procs[p].pc
    case Idle =>
    case Trying(_, _) => TryLockKeepsInv(s, p, limit);
    case Locked(_, _) => ReadKeepsInv(s, p, limit);
    case Seen(_, _, _) => WriteKeepsInv(s, p, limit);
    case Unlocking(_, _, _) => UnlockKeepsInv(s, p, limit);
  }

  lemma {:induction false} RunKeepsInv(s: State, acts: seq<Action>, limit: nat)
    requires Inv(s, limit)
    ensures Inv(Run(s, acts, limit), limit)
  {
    if acts != [] {
      var a := acts[|acts| - 1];
      RunKeepsInv(s, acts[..|acts| - 1], limit);
      var t := Run(s, acts[..|acts| - 1], limit);
      if a.p < |t.procs| {
        if a.Call? { CallKeepsInv(t, a.p, a.job, a.tries, limit); } else { StepKeepsInv(t, a.p, limit); }
      }
    }
  }
}
