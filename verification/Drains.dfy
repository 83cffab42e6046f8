/** Whole drains and whole pushes: what one call of `hv_ring_drain` hands out and what one call of `hv_ring_push`
    claims, with any steps of any other thread in between. */
module Drains {
  import opened Basics
  import opened Ring
  import opened RingSafety

  /** `sts` are the states a schedule passes through, the first of them reachable. */
  ghost predicate Trace(log2: nat, sts: seq<State>, run: seq<Step>) {
    && log2 < 64 && |sts| == |run| + 1 && Reachable(log2, sts[0])
    && forall k: nat :: k < |run| ==> Stepped(sts, run, k)
  }

  ghost predicate Stepped(sts: seq<State>, run: seq<Step>, k: nat) {
    k < |run| && k + 1 < |sts| && Enabled(sts[k], run[k]) && sts[k + 1] == Next(sts[k], run[k])
  }

  lemma {:induction false} AllReachable(log2: nat, sts: seq<State>, run: seq<Step>, k: nat)
    requires Trace(log2, sts, run) && k < |sts|
    ensures Reachable(log2, sts[k])
  {
    if k > 0 {
      AllReachable(log2, sts, run, k - 1);
      var _ := Stepped(sts, run, k - 1);
      var _ := Extend(log2, sts[k - 1], run[k - 1]);
    }
  }

  predicate OfConsumer(step: Step) {
    step.DrainStart? || step.DrainLoadHead? || step.DrainCheck? || step.DrainCopy? || step.DrainStore?
  }

  // ---------------------------------------------------------------- one drain

  /** One call `hv_ring_drain(h, out, max)`: from a consumer at rest to the store of the tail. */
  ghost predicate WholeDrain(log2: nat, sts: seq<State>, run: seq<Step>, max: nat) {
    && Trace(log2, sts, run) && sts[0].consumer.Resting?
    && |run| > 1 && run[0] == DrainStart(max) && run[|run| - 1] == DrainStore
    && forall k :: 0 < k < |run| - 1 ==> !run[k].DrainStart? && !run[k].DrainStore?
  }

  /** The head was loaded at step `l` and is `h`. */
  predicate LoadedAt(sts: seq<State>, run: seq<Step>, l: nat, h: nat) {
    l < |run| && l < |sts| && run[l] == DrainLoadHead && sts[l].head == h
  }

  /** Slot `c` was checked at step `j` and was still being written. */
  ghost predicate FoundInFlight(sts: seq<State>, run: seq<Step>, j: nat, c: nat) {
    j < |run| && j < |sts| && run[j] == DrainCheck && InFlight(sts[j], c)
  }

  /** `h` is the value head had when the drain loaded it. */
  ghost predicate ReachedHead(sts: seq<State>, run: seq<Step>, h: nat) {
    exists l: nat :: LoadedAt(sts, run, l, h)
  }

  ghost predicate MetInFlight(sts: seq<State>, run: seq<Step>, c: nat) {
    exists j: nat :: FoundInFlight(sts, run, j, c)
  }

  /** Part-way through: nothing handed out yet, the limit is the caller's, the head that of the snapshot. */
  ghost predicate PartWay(sts: seq<State>, run: seq<Step>, max: nat, k: nat)
    requires k < |sts|
  {
    var st, base := sts[k], sts[0].tail;
    && st.tail == base && st.delivered == sts[0].delivered
    && match st.consumer
       case Resting => false
       case Loading(m, start) => m == max && start == base
       case Walking(m, c, h, batch) => m == max && c == base + |batch| && |batch| <= max && Snapshot(sts, run, k, h)
       case Copying(m, c, h, batch, _, _) => m == max && c == base + |batch| && |batch| < max && Snapshot(sts, run, k, h)
       case Storing(c, batch) => c == base + |batch| && |batch| <= max && Stopped(sts, run, max, k, c, |batch|)
  }

  ghost predicate Snapshot(sts: seq<State>, run: seq<Step>, k: nat, h: nat) {
    exists l: nat :: l < k && LoadedAt(sts, run, l, h)
  }

  /** Why a drain that handed out `n` events stopped at slot `c`. */
  ghost predicate Stopped(sts: seq<State>, run: seq<Step>, max: nat, k: nat, c: nat, n: nat) {
    n == max || Snapshot(sts, run, k, c) || exists j: nat :: j < k && FoundInFlight(sts, run, j, c)
  }

  lemma Later(sts: seq<State>, run: seq<Step>, k: nat, h: nat)
    requires Snapshot(sts, run, k, h)
    ensures Snapshot(sts, run, k + 1, h)
  {
    var l: nat :| l < k && LoadedAt(sts, run, l, h);
    assert l < k + 1 && LoadedAt(sts, run, l, h);
  }

  lemma StoppedLater(sts: seq<State>, run: seq<Step>, max: nat, k: nat, c: nat, n: nat)
    requires Stopped(sts, run, max, k, c, n)
    ensures Stopped(sts, run, max, k + 1, c, n)
  {
    if n != max {
      if Snapshot(sts, run, k, c) {
        Later(sts, run, k, c);
      } else {
        var j: nat :| j < k && FoundInFlight(sts, run, j, c);
        assert j < k + 1 && FoundInFlight(sts, run, j, c);
      }
    }
  }

  lemma CheckPartWay(log2: nat, sts: seq<State>, run: seq<Step>, max: nat, k: nat)
    requires Trace(log2, sts, run) && k < |run| && run[k] == DrainCheck && PartWay(sts, run, max, k)
    ensures PartWay(sts, run, max, k + 1)
  {
    var _ := Stepped(sts, run, k);
    AllReachable(log2, sts, run, k);
    DrainStopsExactly(log2, sts[k]);
    var w := sts[k].consumer;
    Later(sts, run, k, w.head);
    if InFlight(sts[k], w.cursor) {
      assert k < k + 1 && FoundInFlight(sts, run, k, w.cursor);
    }
  }

  lemma StepPartWay(log2: nat, sts: seq<State>, run: seq<Step>, max: nat, k: nat)
    requires Trace(log2, sts, run) && k < |run| && PartWay(sts, run, max, k)
    requires !run[k].DrainStart? && !run[k].DrainStore?
    ensures PartWay(sts, run, max, k + 1)
  {
    var _ := Stepped(sts, run, k);
    if run[k].DrainCheck? {
      CheckPartWay(log2, sts, run, max, k);
    } else if run[k].DrainLoadHead? {
      assert k < k + 1 && LoadedAt(sts, run, k, sts[k].head);
    } else if run[k].DrainCopy? {
      Later(sts, run, k, sts[k].consumer.head);
    } else {
      SameConsumer(sts[k], run[k], sts[k + 1]);
      OthersPartWay(sts, run, max, k);
    }
  }

  lemma OthersPartWay(sts: seq<State>, run: seq<Step>, max: nat, k: nat)
    requires k + 1 < |sts| && PartWay(sts, run, max, k)
    requires sts[k + 1].consumer == sts[k].consumer && sts[k + 1].tail == sts[k].tail && sts[k + 1].delivered == sts[k].delivered
    ensures PartWay(sts, run, max, k + 1)
  {
    match sts[k].consumer
    case Walking(_, _, h, _) => Later(sts, run, k, h);
    case Copying(_, _, h, _, _, _) => Later(sts, run, k, h);
    case Storing(c, batch) => StoppedLater(sts, run, max, k, c, |batch|);
    case _ =>
  }

  lemma SameConsumer(st: State, step: Step, st': State)
    requires Enabled(st, step) && st' == Next(st, step)
    requires !OfConsumer(step)
    ensures st'.consumer == st.consumer && st'.tail == st.tail && st'.delivered == st.delivered
  {
  }

  lemma {:induction false} AllPartWay(log2: nat, sts: seq<State>, run: seq<Step>, max: nat, k: nat)
    requires WholeDrain(log2, sts, run, max) && 0 < k < |run|
    ensures PartWay(sts, run, max, k)
  {
    if k == 1 {
      var _ := Stepped(sts, run, 0);
    } else {
      AllPartWay(log2, sts, run, max, k - 1);
      StepPartWay(log2, sts, run, max, k - 1);
    }
  }

  /** What one drain hands out: at most the `max` it was called with, and the tail moves by as much.  When it is
      less, the drain had reached the value head had when it was loaded, or met a slot still being written. */
  lemma DrainHandsOut(log2: nat, sts: seq<State>, run: seq<Step>, max: nat)
    requires WholeDrain(log2, sts, run, max)
    ensures var end, n := sts[|run|], |sts[|run|].delivered| - |sts[0].delivered|;
            && 0 <= n <= max && sts[0].delivered <= end.delivered && end.tail == sts[0].tail + n
            && (n < max ==> ReachedHead(sts, run, sts[0].tail + n) || MetInFlight(sts, run, sts[0].tail + n))
  {
    var last := |run| - 1;
    AllPartWay(log2, sts, run, max, last);
    var _ := Stepped(sts, run, last);
    var c := sts[last].consumer;
    var stop := sts[0].tail + |c.batch|;
    assert sts[|run|].delivered == sts[0].delivered + c.batch && c.cursor == stop;
    if |c.batch| < max {
      if Snapshot(sts, run, last, stop) {
        var l: nat :| l < last && LoadedAt(sts, run, l, stop);
        assert ReachedHead(sts, run, stop);
      } else {
        var j: nat :| j < last && FoundInFlight(sts, run, j, stop);
        assert MetInFlight(sts, run, stop);
      }
    }
  }

  // ---------------------------------------------------------------- one push

  /** One call of `hv_ring_push` by thread `t`, from its start on. */
  ghost predicate Pushing(log2: nat, sts: seq<State>, run: seq<Step>, t: Tid, ev: Event) {
    && Trace(log2, sts, run) && run != [] && run[0] == Begin(t, ev)
    && forall k :: 0 < k < |run| ==> !(run[k].Begin? && run[k].t == t)
  }

  /** The event is claimed, at a sequence number from `from` on. */
  ghost predicate ClaimedSince(st: State, from: nat, ev: Event) {
    exists s: nat :: from <= s < |st.claimed| && st.claimed[s] == ev
  }

  /** Where the event of the call is: still with the thread, claimed, or given up. */
  ghost predicate Carries(sts: seq<State>, run: seq<Step>, t: Tid, ev: Event, k: nat)
    requires k < |sts| && 0 < |sts|
  {
    match sts[k].P(t)
    case AtHead(e) => e == ev
    case AtTail(e, _) => e == ev
    case AtCas(e, _) => e == ev
    case Filling(e, s, _) => e == ev && |sts[0].claimed| <= s < |sts[k].claimed| && sts[k].claimed[s] == ev
    case Counting(s) => |sts[0].claimed| <= s < |sts[k].claimed| && sts[k].claimed[s] == ev
    case Dropping => true
    case Idle => ClaimedSince(sts[k], |sts[0].claimed|, ev) || exists j: nat :: j < k && DroppedAt(run, j, t)
  }

  predicate DroppedAt(run: seq<Step>, j: nat, t: Tid) {
    j < |run| && run[j] == Drop(t)
  }

  lemma ClaimsGrow(st: State, step: Step, st': State)
    requires Enabled(st, step) && st' == Next(st, step)
    ensures st.claimed <= st'.claimed
  {
  }

  lemma OthersLeave(st: State, step: Step, st': State, t: Tid)
    requires Enabled(st, step) && st' == Next(st, step)
    requires OfConsumer(step) || step.t != t
    ensures st'.P(t) == st.P(t)
  {
  }

  lemma StepCarries(log2: nat, sts: seq<State>, run: seq<Step>, t: Tid, ev: Event, k: nat)
    requires Pushing(log2, sts, run, t, ev) && 0 < k < |run| && Carries(sts, run, t, ev, k)
    requires |sts[0].claimed| <= |sts[k].claimed| == sts[k].head
    ensures Carries(sts, run, t, ev, k + 1)
  {
    var _ := Stepped(sts, run, k);
    var st, step, st' := sts[k], run[k], sts[k + 1];
    ClaimsGrow(st, step, st');
    if OfConsumer(step) || step.t != t {
      OthersLeave(st, step, st', t);
      if st.P(t).Idle? {
        IdleLater(sts, run, t, ev, k);
      }
    } else if step.Count? {
      var s := st.P(t).seqNo;
      assert |sts[0].claimed| <= s < |st'.claimed| && st'.claimed[s] == ev;
    } else if step.Drop? {
      assert k < k + 1 && DroppedAt(run, k, t);
    }
  }

  lemma IdleLater(sts: seq<State>, run: seq<Step>, t: Tid, ev: Event, k: nat)
    requires k + 1 < |sts| && sts[k].claimed <= sts[k + 1].claimed
    requires sts[k].P(t).Idle? && sts[k + 1].P(t).Idle? && Carries(sts, run, t, ev, k)
    ensures Carries(sts, run, t, ev, k + 1)
  {
    if ClaimedSince(sts[k], |sts[0].claimed|, ev) {
      var s: nat :| |sts[0].claimed| <= s < |sts[k].claimed| && sts[k].claimed[s] == ev;
      assert |sts[0].claimed| <= s < |sts[k + 1].claimed| && sts[k + 1].claimed[s] == ev;
    } else {
      var j: nat :| j < k && DroppedAt(run, j, t);
      assert j < k + 1 && DroppedAt(run, j, t);
    }
  }

  /** Whatever the other threads do, a push that has returned has claimed exactly the event it was called with,
      every field of it, or was dropped. */
  lemma {:induction false} PushClaimsItsEvent(log2: nat, sts: seq<State>, run: seq<Step>, t: Tid, ev: Event, k: nat)
    requires Pushing(log2, sts, run, t, ev) && 0 < k <= |run|
    ensures |sts[0].claimed| <= |sts[k].claimed| && Carries(sts, run, t, ev, k)
    ensures sts[k].P(t).Idle? ==>
              ClaimedSince(sts[k], |sts[0].claimed|, ev) || exists j: nat :: j < k && DroppedAt(run, j, t)
  {
    var _ := Stepped(sts, run, k - 1);
    ClaimsGrow(sts[k - 1], run[k - 1], sts[k]);
    if k > 1 {
      PushClaimsItsEvent(log2, sts, run, t, ev, k - 1);
      AllReachable(log2, sts, run, k - 1);
      ClaimsAreAccounted(log2, sts[k - 1]);
      StepCarries(log2, sts, run, t, ev, k - 1);
    }
  }
}
