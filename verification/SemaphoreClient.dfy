/** `AsyncSemaphore` as it is written: retry loops around reads and writes of a cache that
    other processes use meanwhile. Each call is shown to be a run of the machine. */
module SemaphoreClient {
  import opened Text
  import opened Semaphore

  function ByOthers(p: nat, acts: seq<Action>): (r: seq<Action>)
    ensures forall a :: a in r ==> a.p != p
  {
    if acts == [] then []
    else (if acts[0].p != p then [acts[0]] else []) + ByOthers(p, acts[1..])
  }

  /** What others do before step number `i` of a call. */
  function Gap(schedule: seq<seq<Action>>, i: nat): seq<Action> {
    if i < |schedule| then schedule[i] else []
  }

  /** Others leave a process's program counter alone, and while it is inside the lock they
      change neither the counter nor its slots. */
  ghost predicate Untouched(s: State, s': State, p: nat) {
    && p < |s.procs| && |s'.procs| == |s.procs|
    && s'.procs[p].pc == s.procs[p].pc && s'.procs[p].got == s.procs[p].got
    && (InCritical(s.procs[p]) ==> s'.count == s.count && s'.procs[p].slots == s.procs[p].slots && s'.locked)
  }

  lemma NextByOther(s: State, a: Action, p: nat, limit: nat)
    requires Inv(s, limit) && p < |s.procs| && a.p != p
    ensures Untouched(s, Next(s, a, limit), p)
  {
    if a.p < |s.procs| { assert PcOk(s, s.procs[a.p]); }
  }

  lemma {:induction false} OthersLeaveUntouched(s: State, acts: seq<Action>, p: nat, limit: nat)
    requires Inv(s, limit) && p < |s.procs| && forall a :: a in acts ==> a.p != p
    ensures Untouched(s, Run(s, acts, limit), p)
  {
    if acts != [] {
      var m := |acts| - 1;
      OthersLeaveUntouched(s, acts[..m], p, limit);
      RunKeepsInv(s, acts[..m], limit);
      NextByOther(Run(s, acts[..m], limit), acts[m], p, limit);
    }
  }

  /** No call of `p` begins in the trace. */
  ghost predicate NoCallBy(p: nat, trace: seq<Action>) {
    forall i :: 0 <= i < |trace| && trace[i].p == p ==> trace[i].Step?
  }

  /** The trace begins with this call, and `p` makes no other in it. */
  ghost predicate OneCall(trace: seq<Action>, call: Action) {
    trace != [] && trace[0] == call && NoCallBy(call.p, trace[1..])
  }

  lemma NoCallConcat(p: nat, a: seq<Action>, b: seq<Action>)
    requires NoCallBy(p, a) && NoCallBy(p, b)
    ensures NoCallBy(p, a + b)
  {}

  /** The trace leads from `s` to `s'`, and no call of `p` begins in it. */
  ghost predicate RanTo(s: State, trace: seq<Action>, s': State, limit: nat, p: nat) {
    Inv(s', limit) && |s'.procs| == |s.procs| && s' == Run(s, trace, limit) && NoCallBy(p, trace)
  }

  lemma RanConcat(s: State, a: seq<Action>, t: State, b: seq<Action>, u: State, limit: nat, p: nat)
    requires RanTo(s, a, t, limit, p) && RanTo(t, b, u, limit, p)
    ensures RanTo(s, a + b, u, limit, p)
  {
    RunConcat(s, a, b, limit);
    NoCallConcat(p, a, b);
  }

  /** The trace leads from `s` to `s'` and is that of one call. */
  ghost predicate CalledTo(s: State, trace: seq<Action>, s': State, limit: nat, call: Action) {
    Inv(s', limit) && |s'.procs| == |s.procs| && s' == Run(s, trace, limit) && OneCall(trace, call)
  }

  lemma CalledMore(s: State, a: seq<Action>, t: State, b: seq<Action>, u: State, limit: nat, call: Action)
    requires CalledTo(s, a, t, limit, call) && RanTo(t, b, u, limit, call.p)
    ensures CalledTo(s, a + b, u, limit, call)
  {
    RunConcat(s, a, b, limit);
    OneCallMore(a, b, call);
  }

  lemma OneCallMore(a: seq<Action>, b: seq<Action>, call: Action)
    requires OneCall(a, call) && NoCallBy(call.p, b)
    ensures OneCall(a + b, call)
  {
    assert (a + b)[1..] == a[1..] + b;
    NoCallConcat(call.p, a[1..], b);
  }

  class SharedCache {
    var st: State
    const limit: nat

    constructor (n: nat, limit: nat)
      ensures st == Init(n) && this.limit == limit && Inv(st, limit)
    {
      st := Init(n);
      this.limit := limit;
      new;
      InitInv(n, limit);
    }

    /** Others act, then process `p` makes its one cache operation. */
    method Operate(p: nat, others: seq<Action>) returns (ghost done: seq<Action>)
      requires Inv(st, limit) && p < |st.procs|
      modifies this
      ensures RanTo(old(st), done, st, limit, p)
      ensures exists mid :: Untouched(old(st), mid, p) && Inv(mid, limit) && st == StepOf(mid, p, limit)
      ensures others == [] ==> st == StepOf(old(st), p, limit)
    {
      var before := ByOthers(p, others);
      OthersLeaveUntouched(st, before, p, limit);
      RunKeepsInv(st, before, limit);
      RunKeepsInv(st, before + [Step(p)], limit);
      done := before + [Step(p)];
      assert done[..|before|] == before;
      st := StepOf(Run(st, before, limit), p, limit);
    }

    /** `_acquire_lock`: `cache.add` of the lock key. */
    method Add(p: nat, others: seq<Action>) returns (locked: bool, ghost done: seq<Action>)
      requires Inv(st, limit) && p < |st.procs| && st.procs[p].pc.Trying? && st.procs[p].pc.left != Some(0)
      modifies this
      ensures RanTo(old(st), done, st, limit, p)
      ensures var pc := old(st).procs[p].pc;
              st.procs[p].pc == if locked then Locked(pc.job, pc.left) else Trying(pc.job, Fewer(pc.left))
      ensures st.procs[p].got == old(st).procs[p].got
      ensures others == [] && !old(st).locked ==> locked
    {
      done := Operate(p, others);
      locked := st.procs[p].pc.Locked?;
    }

    /** `cache.get` of the counter. */
    method Get(p: nat, others: seq<Action>) returns (count: nat, ghost done: seq<Action>)
      requires Inv(st, limit) && p < |st.procs| && st.procs[p].pc.Locked? && !st.procs[p].pc.job.Reset?
      modifies this
      ensures RanTo(old(st), done, st, limit, p)
      ensures count == old(st).count
      ensures var pc := old(st).procs[p].pc; st.procs[p].pc == Seen(pc.job, pc.left, count)
      ensures st.procs[p].got == old(st).procs[p].got && st.procs[p].slots == old(st).procs[p].slots
      ensures st.count == count
    {
      done := Operate(p, others);
      count := st.count;
    }

    /** `cache.set` of the counter, or passing over it when the job may not go ahead. */
    method SetCount(p: nat, go: bool, others: seq<Action>) returns (ghost done: seq<Action>)
      requires Inv(st, limit) && p < |st.procs| && st.procs[p].pc.Seen? && !st.procs[p].pc.job.Release?
      requires var pc := st.procs[p].pc; go <==> if pc.job.Acquire? then pc.count < limit else pc.count == 0
      modifies this
      ensures RanTo(old(st), done, st, limit, p)
      ensures var pc := old(st).procs[p].pc; st.procs[p].pc == Unlocking(pc.job, pc.left, go)
      ensures var pc := old(st).procs[p].pc;
              st.procs[p].slots == old(st).procs[p].slots + if !go then 0 else if pc.job.Acquire? then 1 else limit
      ensures st.procs[p].got == old(st).procs[p].got
    {
      assert PcOk(st, st.procs[p]);
      done := Operate(p, others);
    }

    /** `_release_lock`: `cache.delete` of the lock key. */
    method Delete(p: nat, others: seq<Action>) returns (ghost done: seq<Action>)
      requires Inv(st, limit) && p < |st.procs| && st.procs[p].pc.Unlocking?
      requires st.procs[p].pc.job.Acquire? || st.procs[p].pc.job.AcquireAll?
      modifies this
      ensures RanTo(old(st), done, st, limit, p)
      ensures var pc := old(st).procs[p].pc; st.procs[p].pc == if pc.done then Idle else Trying(pc.job, Fewer(pc.left))
      ensures st.procs[p].slots == old(st).procs[p].slots
      ensures old(st).procs[p].pc.done ==> st.procs[p].got
    {
      done := Operate(p, others);
    }

    /** What `acquire` and `acquire_all` do once they have the lock. */
    method Inside(p: nat, job: Job, left: nat, schedule: seq<seq<Action>>, at: nat)
      returns (won: bool, ghost trace: seq<Action>)
      requires Inv(st, limit) && p < |st.procs| && (job.Acquire? || job.AcquireAll?)
      requires st.procs[p].pc == Locked(job, Some(left))
      modifies this
      ensures RanTo(old(st), trace, st, limit, p)
      ensures st.procs[p].pc == if won then Idle else Trying(job, Fewer(Some(left)))
      ensures won ==> st.procs[p].got && st.procs[p].slots >= if job.Acquire? then 1 else limit
    {
      var count;
      ghost var t0, t1, t2;
      count, t0 := Get(p, Gap(schedule, at));
      ghost var s0 := st;
      won := if job.Acquire? then count < limit else count == 0;
      t1 := SetCount(p, won, Gap(schedule, at + 1));
      ghost var s1 := st;
      t2 := Delete(p, Gap(schedule, at + 2));
      trace := t0 + t1 + t2;
      RanConcat(old(st), t0, s0, t1, s1, limit, p);
      RanConcat(old(st), t0 + t1, s1, t2, st, limit, p);
    }

    /** One turn of the retry loop of `acquire` or `acquire_all`. */
    method TryOnce(p: nat, job: Job, left: nat, schedule: seq<seq<Action>>, at: nat)
      returns (won: bool, ghost trace: seq<Action>)
      requires Inv(st, limit) && p < |st.procs| && (job.Acquire? || job.AcquireAll?)
      requires left > 0 && st.procs[p].pc == Trying(job, Some(left))
      modifies this
      ensures RanTo(old(st), trace, st, limit, p)
      ensures !won ==> st.procs[p].pc == Trying(job, Some(left - 1))
      ensures won ==> st.procs[p].pc == Idle && st.procs[p].got
      ensures won ==> st.procs[p].slots >= if job.Acquire? then 1 else limit
    {
      var locked;
      ghost var more;
      locked, trace := Add(p, Gap(schedule, at));
      won := false;
      if locked {
        ghost var mid := st;
        won, more := Inside(p, job, left, schedule, at + 1);
        RanConcat(old(st), trace, mid, more, st, limit, p);
        trace := trace + more;
      }
    }

    /** `acquire` with `max_retries`: true means a slot is held, false means it gave up. */
    method Acquire(p: nat, maxRetries: nat, schedule: seq<seq<Action>>) returns (ok: bool, ghost trace: seq<Action>)
      requires Inv(st, limit) && p < |st.procs| && st.procs[p].pc.Idle?
      modifies this
      ensures CalledTo(old(st), trace, st, limit, Call(p, Job.Acquire, Some(maxRetries)))
      ensures st.procs[p].pc.Idle? && st.procs[p].got == ok
      ensures ok ==> st.procs[p].slots >= 1
    {
      ok, trace := AcquireLoop(p, Job.Acquire, maxRetries, schedule);
    }

    /** `acquire_all` with `max_retries`: true means every slot is held, by this process alone. */
    method AcquireAll(p: nat, maxRetries: nat, schedule: seq<seq<Action>>) returns (ok: bool, ghost trace: seq<Action>)
      requires Inv(st, limit) && p < |st.procs| && st.procs[p].pc.Idle?
      modifies this
      ensures CalledTo(old(st), trace, st, limit, Call(p, Job.AcquireAll, Some(maxRetries)))
      ensures st.procs[p].pc.Idle? && st.procs[p].got == ok
      ensures ok ==> st.procs[p].slots == limit && st.count == limit && st.lost == 0
      ensures ok ==> forall q :: 0 <= q < |st.procs| && q != p ==> st.procs[q].slots == 0
    {
      ok, trace := AcquireLoop(p, Job.AcquireAll, maxRetries, schedule);
      if ok {
        HeldUpdate(st.procs, p, st.procs[p]);
        forall q | 0 <= q < |st.procs| && q != p ensures st.procs[q].slots == 0 { HeldTwo(st.procs, p, q); }
      }
    }

    /** The loop the two share. */
    method AcquireLoop(p: nat, job: Job, maxRetries: nat, schedule: seq<seq<Action>>)
      returns (ok: bool, ghost trace: seq<Action>)
      requires Inv(st, limit) && p < |st.procs| && st.procs[p].pc.Idle? && (job.Acquire? || job.AcquireAll?)
      modifies this
      ensures CalledTo(old(st), trace, st, limit, Call(p, job, Some(maxRetries)))
      ensures st.procs[p].pc.Idle? && st.procs[p].got == ok
      ensures ok ==> st.procs[p].slots >= if job.Acquire? then 1 else limit
    {
      CallKeepsInv(st, p, job, Some(maxRetries), limit);
      ghost var call := Call(p, job, Some(maxRetries));
      trace := [call];
      assert trace[..0] == [];
      st := CallOf(st, p, job, Some(maxRetries));
      var retries := 0;
      ghost var more;
      while retries < maxRetries
        invariant retries <= maxRetries
        invariant CalledTo(old(st), trace, st, limit, call)
        invariant st.procs[p].pc == Trying(job, Some(maxRetries - retries))
      {
        ghost var before := st;
        ok, more := TryOnce(p, job, maxRetries - retries, schedule, 4 * retries);
        CalledMore(old(st), trace, before, more, st, limit, call);
        trace := trace + more;
        if ok { return; }
        retries := retries + 1;
      }
      ghost var before := st;
      more := Operate(p, []);
      CalledMore(old(st), trace, before, more, st, limit, call);
      trace := trace + more;
      ok := false;
    }

    /** `cache.set` of the lowered counter; a holder always finds it above zero. */
    method LowerCount(p: nat, others: seq<Action>) returns (ghost done: seq<Action>)
      requires Inv(st, limit) && p < |st.procs| && st.procs[p].pc.Seen? && st.procs[p].pc.job.Release?
      modifies this
      ensures RanTo(old(st), done, st, limit, p)
      ensures st.procs[p].pc.Unlocking? && st.procs[p].pc.job.Release? && st.procs[p].pc.done
      ensures st.procs[p].got == old(st).procs[p].got
      ensures st.procs[p].slots == old(st).procs[p].slots - 1 && st.count == old(st).count - 1
    {
      assert PcOk(st, st.procs[p]);
      HeldUpdate(st.procs, p, st.procs[p]);
      done := Operate(p, others);
    }

    /** `_release_lock` at the end of `release`. */
    method DeleteAfterRelease(p: nat, others: seq<Action>) returns (ghost done: seq<Action>)
      requires Inv(st, limit) && p < |st.procs| && st.procs[p].pc.Unlocking? && st.procs[p].pc.job.Release?
               && st.procs[p].pc.done
      modifies this
      ensures RanTo(old(st), done, st, limit, p)
      ensures st.procs[p].pc.Idle? && st.procs[p].slots == old(st).procs[p].slots && st.count == old(st).count
      ensures st.procs[p].got == old(st).procs[p].got
    {
      done := Operate(p, others);
    }

    /** What `release` does once it has the lock. */
    method ReleaseInside(p: nat, schedule: seq<seq<Action>>) returns (ghost trace: seq<Action>)
      requires Inv(st, limit) && p < |st.procs| && st.procs[p].pc.Locked? && st.procs[p].pc.job.Release?
      modifies this
      ensures RanTo(old(st), trace, st, limit, p)
      ensures st.procs[p].pc.Idle? && st.procs[p].slots == old(st).procs[p].slots - 1
      ensures st.count == old(st).count - 1
      ensures st.procs[p].got == old(st).procs[p].got
    {
      var count;
      ghost var t0, t1, t2;
      count, t0 := Get(p, Gap(schedule, 0));
      ghost var s0 := st;
      t1 := LowerCount(p, Gap(schedule, 1));
      ghost var s1 := st;
      t2 := DeleteAfterRelease(p, Gap(schedule, 2));
      trace := t0 + t1 + t2;
      RanConcat(old(st), t0, s0, t1, s1, limit, p);
      RanConcat(old(st), t0 + t1, s1, t2, st, limit, p);
    }

    /** `release` by a holder: one try for the lock. A free lock lowers the counter by the slot
        given back; a busy one leaves it and the slot is lost. */
    method Release(p: nat, schedule: seq<seq<Action>>) returns (ghost trace: seq<Action>)
      requires Inv(st, limit) && p < |st.procs| && st.procs[p].pc.Idle? && st.procs[p].slots > 0
      modifies this
      ensures CalledTo(old(st), trace, st, limit, Call(p, Job.Release, None))
      ensures st.procs[p].pc.Idle? && st.procs[p].slots == old(st).procs[p].slots - 1
      ensures st.count == if old(st).locked then old(st).count else old(st).count - 1
      ensures old(st).locked ==> st.lost == old(st).lost + 1
      ensures st.procs[p].got == old(st).procs[p].got
    {
      CallKeepsInv(st, p, Job.Release, None, limit);
      trace := [Call(p, Job.Release, None)];
      assert trace[..0] == [];
      st := CallOf(st, p, Job.Release, None);
      if st.procs[p].pc.Locked? {
        ghost var before := st;
        ghost var more := ReleaseInside(p, schedule);
        CalledMore(old(st), trace, before, more, st, limit, Call(p, Job.Release, None));
        trace := trace + more;
      }
    }

    /** `cache.set` of the counter to 0, without reading it. */
    method SetZero(p: nat, others: seq<Action>) returns (ghost done: seq<Action>)
      requires Inv(st, limit) && p < |st.procs| && st.procs[p].pc == Locked(Job.Reset, None)
      modifies this
      ensures RanTo(old(st), done, st, limit, p)
      ensures st.procs[p].pc == Unlocking(Job.Reset, None, true) && st.count == 0
      ensures st.procs[p].got == old(st).procs[p].got
    {
      done := Operate(p, others);
    }

    /** `_release_lock` at the end of `reset`. */
    method DeleteAfterReset(p: nat, others: seq<Action>) returns (ghost done: seq<Action>)
      requires Inv(st, limit) && p < |st.procs| && st.procs[p].pc == Unlocking(Job.Reset, None, true)
      modifies this
      ensures RanTo(old(st), done, st, limit, p)
      ensures st.procs[p].pc.Idle? && st.count == old(st).count
      ensures st.procs[p].got == old(st).procs[p].got
    {
      done := Operate(p, others);
    }

    /** What `reset` does once it has the lock. */
    method ResetInside(p: nat, schedule: seq<seq<Action>>, at: nat) returns (ghost trace: seq<Action>)
      requires Inv(st, limit) && p < |st.procs| && st.procs[p].pc == Locked(Job.Reset, None)
      modifies this
      ensures RanTo(old(st), trace, st, limit, p)
      ensures st.procs[p].pc.Idle? && st.count == 0
      ensures st.procs[p].got == old(st).procs[p].got
    {
      trace := SetZero(p, Gap(schedule, at));
      ghost var mid := st;
      ghost var more := DeleteAfterReset(p, Gap(schedule, at + 1));
      RanConcat(old(st), trace, mid, more, st, limit, p);
      trace := trace + more;
    }

    /** `reset`, watched for some turns of its waiting loop: it is done once it had the lock, and
        then the counter is 0, nobody holds a slot and no release is lost; else it still waits. */
    method Reset(p: nat, turns: nat, schedule: seq<seq<Action>>) returns (done: bool, ghost trace: seq<Action>)
      requires Inv(st, limit) && p < |st.procs| && st.procs[p].pc.Idle?
      modifies this
      ensures CalledTo(old(st), trace, st, limit, Call(p, Job.Reset, None))
      ensures st.procs[p].pc == if done then Idle else Trying(Job.Reset, None)
      ensures done ==> st.count == 0 && Held(st.procs) == 0 && st.lost == 0
      ensures turns > 0 && schedule == [] && !old(st).locked ==> done
      ensures st.procs[p].got == old(st).procs[p].got
    {
      CallKeepsInv(st, p, Job.Reset, None, limit);
      ghost var call := Call(p, Job.Reset, None);
      trace := [call];
      assert trace[..0] == [];
      st := CallOf(st, p, Job.Reset, None);
      ghost var more;
      for i := 0 to turns
        invariant CalledTo(old(st), trace, st, limit, call)
        invariant st.procs[p].pc == Trying(Job.Reset, None) && st.procs[p].got == old(st).procs[p].got
        invariant schedule == [] && !old(st).locked ==> i == 0 && !st.locked
      {
        ghost var before := st;
        var locked;
        locked, more := Add(p, Gap(schedule, i));
        CalledMore(old(st), trace, before, more, st, limit, call);
        trace := trace + more;
        if locked {
          before := st;
          more := ResetInside(p, schedule, i + 1);
          CalledMore(old(st), trace, before, more, st, limit, call);
          trace := trace + more;
          return true, trace;
        }
      }
      done := false;
    }
  }
}
