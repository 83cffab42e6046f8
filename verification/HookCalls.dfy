/** Whole calls of the allocator hooks: what one call of `free`, `realloc` or an allocating function does, from
    its first step to its return, with any steps of any other thread in between. */
module HookCalls {
  import opened Interceptor
  import Ring

  /** `sts` are the states a schedule of hooks, pushes and drains passes through. */
  ghost predicate Trace(sts: seq<Sys>, run: seq<SysStep>) {
    |sts| == |run| + 1 && forall k: nat :: k < |run| ==> Stepped(sts, run, k)
  }

  ghost predicate Stepped(sts: seq<Sys>, run: seq<SysStep>, k: nat) {
    k < |run| && k + 1 < |sts| && SysEnabled(sts[k], run[k]) && sts[k + 1] == SysNext(sts[k], run[k])
  }

  /** A step of the hook of thread `t` itself. */
  predicate HookStep(step: SysStep, t: Ring.Tid) {
    match step
    case Malloc(u, _, _) => u == t
    case Free(u, _) => u == t
    case Realloc(u, _) => u == t
    case RealFree(u) => u == t
    case RealRealloc(u, _, _) => u == t
    case Push(_) => false
  }

  /** The last step of a push of thread `t`: its event is in the ring, or counted as dropped. */
  predicate Pushed(step: SysStep, t: Ring.Tid) {
    step == Push(Ring.Count(t)) || step == Push(Ring.Drop(t))
  }

  /** One call of a hook: inside it from the first step to the last, and out of it then. */
  ghost predicate Call(sts: seq<Sys>, run: seq<SysStep>, t: Ring.Tid) {
    && Trace(sts, run) && run != [] && HookStep(run[0], t) && sts[0].H(t).Outside? && sts[|run|].H(t).Outside?
    && forall k :: 0 < k < |run| ==> !sts[k].H(t).Outside?
  }

  lemma OtherStep(sys: Sys, step: SysStep, t: Ring.Tid)
    requires SysEnabled(sys, step) && !HookStep(step, t) && !Pushed(step, t)
    ensures SysNext(sys, step).H(t) == sys.H(t)
  {
  }

  ghost predicate PushedBy(run: seq<SysStep>, k: nat, t: Ring.Tid) {
    exists i :: 0 < i < k && i < |run| && Pushed(run[i], t)
  }

  ghost predicate NoHookStep(run: seq<SysStep>, i: nat, k: nat, t: Ring.Tid) {
    forall x :: i < x < k && x < |run| ==> !HookStep(run[x], t)
  }

  /** Until the hook's next step the free is being pushed, or has been. */
  ghost predicate Freeing(sts: seq<Sys>, run: seq<SysStep>, k: nat, t: Ring.Tid, p: Addr, resize: bool) {
    k < |sts| && (sts[k].H(t) == FreeEmit(p, resize) || (sts[k].H(t) == Released(p, resize) && PushedBy(run, k, t)))
  }

  lemma {:induction false} FreeGoesOn(sts: seq<Sys>, run: seq<SysStep>, t: Ring.Tid, p: Addr, resize: bool, k: nat)
    requires Trace(sts, run) && 0 < k <= |run| && sts[1].H(t) == FreeEmit(p, resize) && NoHookStep(run, 0, k, t)
    ensures Freeing(sts, run, k, t, p, resize)
    decreases k
  {
    if k > 1 {
      FreeGoesOn(sts, run, t, p, resize, k - 1);
      var _ := Stepped(sts, run, k - 1);
      if !Pushed(run[k - 1], t) {
        OtherStep(sts[k - 1], run[k - 1], t);
      }
    }
  }

  /** The hook's next step, of which there is one before the call returns. */
  lemma NextHookStep(sts: seq<Sys>, run: seq<SysStep>, t: Ring.Tid, p: Addr, resize: bool) returns (j: nat)
    requires Call(sts, run, t) && sts[1].H(t) == FreeEmit(p, resize)
    ensures 0 < j < |run| && HookStep(run[j], t) && NoHookStep(run, 0, j, t) && PushedBy(run, j, t)
    ensures sts[j].H(t) == Released(p, resize) && SysEnabled(sts[j], run[j]) && sts[j + 1] == SysNext(sts[j], run[j])
  {
    j := FirstHookStep(run, t, 1);
    FreeGoesOn(sts, run, t, p, resize, j);
    var _ := Stepped(sts, run, j);
  }

  lemma {:induction false} FirstHookStep(run: seq<SysStep>, t: Ring.Tid, from: nat) returns (j: nat)
    requires 0 < from <= |run| && NoHookStep(run, 0, from, t)
    ensures from <= j <= |run| && NoHookStep(run, 0, j, t) && (j < |run| ==> HookStep(run[j], t))
    decreases |run| - from
  {
    if from == |run| || HookStep(run[from], t) {
      j := from;
    } else {
      j := FirstHookStep(run, t, from + 1);
    }
  }

  /** A call of `free` pushes the event it was given first; when that push is over it releases exactly that
      block, and returns. */
  lemma FreeCall(sts: seq<Sys>, run: seq<SysStep>, t: Ring.Tid, ev: Ring.Event)
    requires Call(sts, run, t) && run[0] == Free(t, ev)
    ensures var n := |run| - 1;
            && sts[1].ring.P(t) == Ring.AtHead(ev) && sts[1].held == sts[0].held && sts[1].avail == sts[0].avail - {ev.ptr}
            && n > 0 && run[n] == RealFree(t) && NoHookStep(run, 0, n, t) && PushedBy(run, n, t)
            && sts[n + 1].held == sts[n].held - {ev.ptr}
  {
    var _ := Stepped(sts, run, 0);
    var j := NextHookStep(sts, run, t, ev.ptr, false);
    assert j == |run| - 1;
  }

  /** Until its push is over, an allocation event is being pushed. */
  lemma {:induction false} EmitGoesOn(sts: seq<Sys>, run: seq<SysStep>, t: Ring.Tid, p: Addr, i: nat, k: nat)
    requires Trace(sts, run) && 0 < i <= k <= |run| && sts[i].H(t) == AllocEmit(p)
    requires forall x :: i <= x < k ==> !Pushed(run[x], t)
    ensures sts[k].H(t) == AllocEmit(p) && NoHookStep(run, i - 1, k, t)
    decreases k
  {
    if i < k {
      EmitGoesOn(sts, run, t, p, i, k - 1);
      var _ := Stepped(sts, run, k - 1);
      OtherStep(sts[k - 1], run[k - 1], t);
    }
  }

  /** The call returns with the end of the push, and from then on the target may pass the block in. */
  lemma EmitReturns(sts: seq<Sys>, run: seq<SysStep>, t: Ring.Tid, p: Addr, i: nat)
    requires Call(sts, run, t) && 0 < i < |sts| && sts[i].H(t) == AllocEmit(p)
    ensures var n := |run| - 1;
            i <= n && Pushed(run[n], t) && NoHookStep(run, i - 1, n, t) && p in sts[n + 1].avail
  {
    var j := FirstPushed(run, t, i);
    EmitGoesOn(sts, run, t, p, i, j);
    var _ := Stepped(sts, run, j);
    assert j == |run| - 1;
  }

  lemma {:induction false} FirstPushed(run: seq<SysStep>, t: Ring.Tid, from: nat) returns (j: nat)
    requires from <= |run|
    ensures from <= j <= |run| && (forall x :: from <= x < j ==> !Pushed(run[x], t)) && (j < |run| ==> Pushed(run[j], t))
    decreases |run| - from
  {
    if from == |run| || Pushed(run[from], t) {
      j := from;
    } else {
      j := FirstPushed(run, t, from + 1);
    }
  }

  /** A call of an allocating function pushes the event of the block the allocator handed out, and returns when
      that push is over. */
  lemma MallocCall(sts: seq<Sys>, run: seq<SysStep>, t: Ring.Tid, ev: Ring.Event, size: nat)
    requires Call(sts, run, t) && run[0] == Malloc(t, ev, size)
    ensures var n := |run| - 1;
            && sts[1].ring.P(t) == Ring.AtHead(ev) && sts[1].held == sts[0].held[ev.ptr := size]
            && n > 0 && Pushed(run[n], t) && NoHookStep(run, 0, n, t) && ev.ptr in sts[n + 1].avail
  {
    var _ := Stepped(sts, run, 0);
    EmitReturns(sts, run, t, ev.ptr, 1);
  }

  /** A call of `realloc` pushes the free of the old block; when that push is over the allocator trades it for
      another, or the same; then it pushes the event of that one and returns. */
  lemma ReallocCall(sts: seq<Sys>, run: seq<SysStep>, t: Ring.Tid, ev: Ring.Event)
    returns (j: nat, got: Ring.Event, size: nat)
    requires Call(sts, run, t) && run[0] == Realloc(t, ev)
    ensures var n := |run| - 1;
            && sts[1].ring.P(t) == Ring.AtHead(ev) && sts[1].held == sts[0].held && sts[1].avail == sts[0].avail - {ev.ptr}
            && 0 < j < n && run[j] == RealRealloc(t, got, size) && NoHookStep(run, 0, j, t) && PushedBy(run, j, t)
            && sts[j + 1].ring.P(t) == Ring.AtHead(got) && sts[j + 1].held == (sts[j].held - {ev.ptr})[got.ptr := size]
            && Pushed(run[n], t) && NoHookStep(run, j, n, t) && got.ptr in sts[n + 1].avail
  {
    var _ := Stepped(sts, run, 0);
    j := NextHookStep(sts, run, t, ev.ptr, true);
    got, size := run[j].ev, run[j].size;
    EmitReturns(sts, run, t, got.ptr, j + 1);
  }
}
