/** What every interleaving of the semaphore's operations keeps. */
module SemaphoreRuns {
  import opened Text
  import opened Semaphore

  // ---------------------------------------------------------------- safety

  /** Conservation in every reachable state: the counter is the slots held plus the releases
      lost to a busy lock, so never more than `limit` slots are held. */
  lemma SlotsAreConserved(n: nat, acts: seq<Action>, limit: nat)
    ensures var s := Run(Init(n), acts, limit);
            s.count == Held(s.procs) + s.lost && s.count <= limit && Held(s.procs) <= limit
  {
    InitInv(n, limit);
    RunKeepsInv(Init(n), acts, limit);
  }

  /** Never do two processes work inside the lock at once. */
  lemma LockExcludes(n: nat, acts: seq<Action>, limit: nat, p: nat, q: nat)
    requires var s := Run(Init(n), acts, limit);
             p < |s.procs| && q < |s.procs| && InCritical(s.procs[p]) && InCritical(s.procs[q])
    ensures p == q
  {
    InitInv(n, limit);
    RunKeepsInv(Init(n), acts, limit);
  }

  /** With limit 1, as registry and stack deploys use it, two processes never hold it. */
  lemma LimitOneExcludes(n: nat, acts: seq<Action>, p: nat, q: nat)
    requires var s := Run(Init(n), acts, 1);
             p < |s.procs| && q < |s.procs| && s.procs[p].slots > 0 && s.procs[q].slots > 0
    ensures p == q
  {
    var s := Run(Init(n), acts, 1);
    SlotsAreConserved(n, acts, 1);
    if p != q { HeldTwo(s.procs, p, q); }
  }

  // ---------------------------------------------------------------- all slots

  ghost predicate AloneWithAll(s: State, p: nat, limit: nat) {
    && p < |s.procs| && s.procs[p].slots == limit
    && (forall q :: 0 <= q < |s.procs| && q != p ==> s.procs[q].slots == 0)
    && s.count == limit && s.lost == 0
  }

  /** A process that holds every slot, as after `acquire_all`, is the only holder. */
  lemma AllSlotsAlone(s: State, p: nat, limit: nat)
    requires Inv(s, limit) && p < |s.procs| && s.procs[p].slots == limit
    ensures AloneWithAll(s, p, limit)
  {
    HeldUpdate(s.procs, p, s.procs[p]);
    forall q | 0 <= q < |s.procs| && q != p ensures s.procs[q].slots == 0 { HeldTwo(s.procs, p, q); }
  }

  predicate Runs(q: Proc, job: Job) {
    !q.pc.Idle? && q.pc.job == job
  }

  ghost predicate NoReset(s: State) {
    forall i :: 0 <= i < |s.procs| ==> !Runs(s.procs[i], Reset)
  }

  /** `p` does not release and nobody resets. */
  ghost predicate Keeps(acts: seq<Action>, p: nat) {
    forall a :: a in acts && a.Call? ==> !a.job.Reset? && !(a.p == p && a.job.Release?)
  }

  lemma NextKeepsSlots(s: State, a: Action, limit: nat, p: nat)
    requires Inv(s, limit) && NoReset(s) && p < |s.procs|
    requires !Runs(s.procs[p], Release)
    requires a.Call? ==> !a.job.Reset? && !(a.p == p && a.job.Release?)
    ensures var s' := Next(s, a, limit);
            |s'.procs| == |s.procs| && NoReset(s') && !Runs(s'.procs[p], Release)
            && s'.procs[p].slots >= s.procs[p].slots
  {
    if a.p < |s.procs| { assert PcOk(s, s.procs[a.p]) && !Runs(s.procs[a.p], Reset); }
  }

  /** While a process holds every slot, no interleaving lets anyone else in, until it releases
      or somebody resets. */
  lemma {:induction false} NobodyEntersWhileAllHeld(s: State, acts: seq<Action>, limit: nat, p: nat)
    requires Inv(s, limit) && NoReset(s) && p < |s.procs|
    requires s.procs[p].slots == limit && !Runs(s.procs[p], Release) && Keeps(acts, p)
    ensures var s' := Run(s, acts, limit);
            AloneWithAll(s', p, limit) && NoReset(s') && !Runs(s'.procs[p], Release)
  {
    RunKeepsInv(s, acts, limit);
    if acts == [] {
      AllSlotsAlone(s, p, limit);
    } else {
      var m := |acts| - 1;
      RunKeepsInv(s, acts[..m], limit);
      NobodyEntersWhileAllHeld(s, acts[..m], limit, p);
      assert acts[m] in acts;
      var t, u := Run(s, acts[..m], limit), Run(s, acts, limit);
      NextKeepsSlots(t, acts[m], limit, p);
      HeldUpdate(u.procs, p, u.procs[p]);
      AllSlotsAlone(u, p, limit);
    }
  }

  // ---------------------------------------------------------------- lost releases

  lemma LostStays(s: State, a: Action, limit: nat)
    requires NoReset(s) && (a.Call? ==> !a.job.Reset?)
    ensures var s' := Next(s, a, limit); NoReset(s') && s'.lost >= s.lost && |s'.procs| == |s.procs|
  {
    if a.p < |s.procs| { assert !Runs(s.procs[a.p], Reset); }
  }

  /** Lost releases are never made good: once as many are lost as the limit, no process ever
      holds a slot again in any run without `reset`. */
  lemma {:induction false} LostReleasesStarve(s: State, acts: seq<Action>, limit: nat)
    requires Inv(s, limit) && NoReset(s) && s.lost >= limit
    requires forall a :: a in acts && a.Call? ==> !a.job.Reset?
    ensures var s' := Run(s, acts, limit);
            NoReset(s') && s'.lost >= limit && s'.count == limit && Held(s'.procs) == 0
  {
    RunKeepsInv(s, acts, limit);
    if acts != [] {
      var m := |acts| - 1;
      LostReleasesStarve(s, acts[..m], limit);
      assert acts[m] in acts;
      LostStays(Run(s, acts[..m], limit), acts[m], limit);
    }
  }

  /** One uninterrupted `acquire` or `acquire_all` with a single try. */
  ghost function AloneTry(s: State, p: nat, job: Job, limit: nat): State
    requires p < |s.procs|
  {
    var a := CallOf(s, p, job, Some(1));
    var b := StepOf(a, p, limit);
    var c := StepOf(b, p, limit);
    var d := StepOf(c, p, limit);
    StepOf(d, p, limit)
  }

  /** When nobody is inside the lock, an undisturbed `acquire` gains a slot exactly when the slots
      held and the releases lost leave room below the limit. */
  lemma AcquireSucceedsIff(s: State, p: nat, limit: nat)
    requires Inv(s, limit) && p < |s.procs| && s.procs[p].pc.Idle? && !s.locked
    ensures var q := AloneTry(s, p, Acquire, limit).procs[p];
            q.slots == s.procs[p].slots + if Held(s.procs) + s.lost < limit then 1 else 0
    ensures !AloneTry(s, p, Acquire, limit).locked
  {}

  /** And an undisturbed `acquire_all` gains all of them exactly when none is held or lost. */
  lemma AcquireAllSucceedsIff(s: State, p: nat, limit: nat)
    requires Inv(s, limit) && p < |s.procs| && s.procs[p].pc.Idle? && !s.locked
    ensures var q := AloneTry(s, p, AcquireAll, limit).procs[p];
            q.slots == s.procs[p].slots + if Held(s.procs) + s.lost == 0 then limit else 0
    ensures !AloneTry(s, p, AcquireAll, limit).locked
  {}

  // ---------------------------------------------------------------- reset

  function Resetting(p: nat): seq<Action> {
    [Call(p, Reset, None), Step(p), Step(p), Step(p)]
  }

  /** The write of `reset` frees every slot and forgets the lost releases. */
  lemma ResetWrites(s: State, p: nat, limit: nat)
    requires p < |s.procs| && s.procs[p].pc.Locked? && s.procs[p].pc.job.Reset?
    ensures var s' := StepOf(s, p, limit); s'.count == 0 && s'.lost == 0 && Held(s'.procs) == 0
  {
    HeldNone(StepOf(s, p, limit).procs);
  }

  lemma FourActions(s: State, acts: seq<Action>, r: State, t: State, u: State, v: State, limit: nat)
    requires |acts| == 4 && Next(s, acts[0], limit) == r && Next(r, acts[1], limit) == t
    requires Next(t, acts[2], limit) == u && Next(u, acts[3], limit) == v
    ensures Run(s, acts, limit) == v
  {
    assert acts[..0] == [] && acts[..4] == acts && Run(s, [], limit) == s;
    RunOn(s, acts, 0, s, r, limit);
    RunOn(s, acts, 1, r, t, limit);
    RunOn(s, acts, 2, t, u, limit);
    RunOn(s, acts, 3, u, v, limit);
  }

  /** The states an undisturbed `reset` goes through. */
  lemma ResetSteps(s: State, p: nat, limit: nat) returns (t: State, u: State)
    requires p < |s.procs| && s.procs[p].pc.Idle? && !s.locked
    ensures t == StepOf(CallOf(s, p, Reset, None), p, limit) && |t.procs| == |s.procs|
    ensures t.procs[p].pc == Locked(Reset, None)
    ensures u == StepOf(t, p, limit) && u.procs[p].pc == Unlocking(Reset, None, true) && |u.procs| == |s.procs|
    ensures u.count == 0 && u.lost == 0 && Held(u.procs) == 0
  {
    t := StepOf(CallOf(s, p, Reset, None), p, limit);
    u := StepOf(t, p, limit);
    ResetWrites(t, p, limit);
  }

  lemma ResetRuns(s: State, p: nat, r: State, t: State, u: State, v: State, limit: nat)
    requires p < |s.procs| == |r.procs| == |t.procs| == |u.procs|
    requires r == CallOf(s, p, Reset, None)
    requires t == StepOf(r, p, limit) && u == StepOf(t, p, limit) && v == StepOf(u, p, limit)
    ensures Run(s, Resetting(p), limit) == v
  {
    var acts := [Call(p, Reset, None), Step(p), Step(p), Step(p)];
    FourActions(s, acts, r, t, u, v, limit);
  }

  lemma ResetUnlocks(s: State, p: nat, limit: nat)
    requires p < |s.procs| && s.procs[p].pc == Unlocking(Reset, None, true)
    ensures var s' := StepOf(s, p, limit);
            && s'.count == s.count && s'.lost == s.lost && Held(s'.procs) == Held(s.procs)
            && !s'.locked && |s'.procs| == |s.procs| && s'.procs[p].pc.Idle?
  {
    HeldUpdate(s.procs, p, StepOf(s, p, limit).procs[p]);
  }

  /** An undisturbed `reset` zeroes the counter, frees every slot and forgets the lost releases. */
  lemma ResetFreesAll(s: State, p: nat, limit: nat)
    requires Inv(s, limit) && p < |s.procs| && s.procs[p].pc.Idle? && !s.locked
    ensures var s' := Run(s, Resetting(p), limit);
            && s'.count == 0 && s'.lost == 0 && Held(s'.procs) == 0
            && !s'.locked && |s'.procs| == |s.procs| && s'.procs[p].pc.Idle?
  {
    var t, u := ResetSteps(s, p, limit);
    var v := StepOf(u, p, limit);
    ResetUnlocks(u, p, limit);
    ResetRuns(s, p, CallOf(s, p, Reset, None), t, u, v, limit);
  }

  /** So it also gives back what starvation took: whoever then asks gets a slot. */
  lemma ResetEndsStarvation(s: State, p: nat, q: nat, limit: nat)
    requires Inv(s, limit) && p < |s.procs| && q < |s.procs| && s.procs[p].pc.Idle? && !s.locked && limit > 0
    requires |Run(s, Resetting(p), limit).procs| == |s.procs| && Run(s, Resetting(p), limit).procs[q].pc.Idle?
    ensures var s' := Run(s, Resetting(p), limit);
            |s'.procs| == |s.procs| && AloneTry(s', q, Acquire, limit).procs[q].slots == 1
  {
    ResetFreesAll(s, p, limit);
    RunKeepsInv(s, Resetting(p), limit);
    var s' := Run(s, Resetting(p), limit);
    HeldUpdate(s'.procs, q, s'.procs[q]);
    AcquireSucceedsIff(s', q, limit);
  }

  // ---------------------------------------------------------------- a lost release

  function Taking(): seq<Action> {
    [Call(0, Acquire, None), Step(0), Step(0), Step(0), Step(0)]
  }

  function Losing(): seq<Action> {
    [Call(1, Acquire, None), Step(1), Call(0, Release, None)]
  }

  /** The action after the first `n` leads on from the state they lead to. */
  lemma RunOn(s: State, acts: seq<Action>, n: nat, t: State, u: State, limit: nat)
    requires n < |acts| && Run(s, acts[..n], limit) == t && Next(t, acts[n], limit) == u
    ensures Run(s, acts[..n + 1], limit) == u
  {
    assert acts[..n + 1][..n] == acts[..n];
  }

  /** Process 0, undisturbed, takes the one slot. */
  lemma TakingTakes()
    ensures Run(Init(2), Taking(), 1) == State(false, 1, [Proc(Idle, 1, true), Proc(Idle, 0, false)], 0)
  {
    var s, i, acts := Init(2), Proc(Idle, 0, false), Taking();
    var s1 := State(false, 0, [Proc(Trying(Acquire, None), 0, false), i], 0);
    var s2 := State(true, 0, [Proc(Locked(Acquire, None), 0, false), i], 0);
    var s3 := State(true, 0, [Proc(Seen(Acquire, None, 0), 0, false), i], 0);
    var s4 := State(true, 1, [Proc(Unlocking(Acquire, None, true), 1, false), i], 0);
    assert s.procs == [i, i];
    RunOn(s, acts, 0, s, s1, 1);
    RunOn(s, acts, 1, s1, s2, 1);
    RunOn(s, acts, 2, s2, s3, 1);
    RunOn(s, acts, 3, s3, s4, 1);
    RunOn(s, acts, 4, s4, State(false, 1, [Proc(Idle, 1, true), i], 0), 1);
    assert acts[..5] == acts;
  }

  /** Process 1 has the lock, to ask for the slot, when process 0 releases. */
  lemma LosingLoses()
    ensures var s := State(false, 1, [Proc(Idle, 1, true), Proc(Idle, 0, false)], 0);
            Run(s, Losing(), 1) == State(true, 1, [Proc(Idle, 0, true), Proc(Locked(Acquire, None), 0, false)], 1)
  {
    var s, acts := State(false, 1, [Proc(Idle, 1, true), Proc(Idle, 0, false)], 0), Losing();
    var s1 := State(false, 1, [Proc(Idle, 1, true), Proc(Trying(Acquire, None), 0, false)], 0);
    var s2 := State(true, 1, [Proc(Idle, 1, true), Proc(Locked(Acquire, None), 0, false)], 0);
    RunOn(s, acts, 0, s, s1, 1);
    RunOn(s, acts, 1, s1, s2, 1);
    RunOn(s, acts, 2, s2, State(true, 1, [Proc(Idle, 0, true), Proc(Locked(Acquire, None), 0, false)], 1), 1);
    assert acts[..3] == acts;
  }

  /** A run of two processes, with limit 1 and no `reset`, that loses a release. */
  lemma ReleaseIsLost() returns (first: seq<Action>)
    ensures Run(Init(2), first, 1) == State(true, 1, [Proc(Idle, 0, true), Proc(Locked(Acquire, None), 0, false)], 1)
  {
    TakingTakes();
    LosingLoses();
    RunConcat(Init(2), Taking(), Losing(), 1);
    first := Taking() + Losing();
  }

  lemma RunFromStart(acts: seq<Action>)
    ensures Inv(Run(Init(2), acts, 1), 1)
  {
    InitInv(2, 1);
    RunKeepsInv(Init(2), acts, 1);
  }

  lemma LiteralHasNoReset(s: State)
    requires s == State(true, 1, [Proc(Idle, 0, true), Proc(Locked(Acquire, None), 0, false)], 1)
    ensures NoReset(s) && s.lost == 1
  {}

  /** So with limit 1 a release can be lost for good: this run meets all that starvation needs. */
  lemma ReleaseCanBeLost() returns (first: seq<Action>)
    ensures var s := Run(Init(2), first, 1); Inv(s, 1) && NoReset(s) && s.lost >= 1
  {
    first := ReleaseIsLost();
    LiteralHasNoReset(Run(Init(2), first, 1));
    RunFromStart(first);
  }
}
