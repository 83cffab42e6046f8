/** One `malloc` of a block too large to report, followed from the hook through the ring to the consumer's
    counters. */
module LargeBlocks {
  import opened Basics
  import opened Ring
  import RingSafety
  import opened Interceptor
  import HeapApps
  import opened Pipeline

  /** A step of the ring that ends no push changes nothing but the ring. */
  lemma RingStep(sys: Sys, s: Step) returns (sys': Sys)
    requires SysReachable(0, map[], sys) && Enabled(sys.ring, s) && !s.Begin? && !s.Count? && !s.Drop?
    ensures SysReachable(0, map[], sys') && sys' == sys.(ring := Next(sys.ring, s))
  {
    sys' := Extend(0, map[], sys, Push(s));
  }

  /** A one-slot ring on which thread 1 is inside `malloc` with its first event. */
  ghost predicate Inside(sys: Sys, ev: Event, size: nat) {
    && SysReachable(0, map[], sys) && sys.ring.dropped == 0
    && sys.held == map[ev.ptr := size] && sys.hooks == map[1 := AllocEmit(ev.ptr)]
    && sys.ring.cap == 1 && sys.ring.log2 == 0 && |sys.ring.slots| == 1 && |sys.ring.slots[0].words| == FIELDS
    && sys.ring.consumer == Resting && sys.ring.tail == 0 && sys.ring.delivered == [] && sys.ring.producers.Keys == {1}
  }

  lemma EnterMalloc(ev: Event, size: nat) returns (sys: Sys)
    requires !IsFree(ev) && ev.ptr != 0 && Reports(ev, size)
    ensures Inside(sys, ev, size) && sys.ring.head == 0 && sys.ring.claimed == [] && sys.ring.P(1) == AtTail(ev, 0)
  {
    sys := SysInit(0, map[]);
    assert SysExec(sys, []) == Some(sys);
    sys := Extend(0, map[], sys, Malloc(1, ev, size));
    sys := RingStep(sys, LoadHead(1));
  }

  lemma ClaimSlot(ev: Event, size: nat) returns (sys: Sys)
    requires !IsFree(ev) && ev.ptr != 0 && Reports(ev, size)
    ensures Inside(sys, ev, size) && sys.ring.head == 1 && |sys.ring.claimed| == 1 && sys.ring.P(1) == Filling(ev, 0, 0)
  {
    sys := EnterMalloc(ev, size);
    RingSafety.RoomTest(0, 0, 1);
    sys := RingStep(sys, LoadTail(1));
    sys := RingStep(sys, Cas(1, false));
  }

  lemma FillSlot(ev: Event, size: nat) returns (sys: Sys)
    requires !IsFree(ev) && ev.ptr != 0 && Reports(ev, size)
    ensures Inside(sys, ev, size) && sys.ring.head == 1 && |sys.ring.claimed| == 1 && sys.ring.P(1) == Filling(ev, 0, FIELDS)
  {
    sys := ClaimSlot(ev, size);
    assert Index(1, 0) == 0;
    for k := 0 to FIELDS
      invariant Inside(sys, ev, size) && sys.ring.head == 1 && |sys.ring.claimed| == 1 && sys.ring.P(1) == Filling(ev, 0, k)
    {
      sys := RingStep(sys, WriteField(1));
    }
  }

  /** The call has returned; nothing has been drained. */
  ghost predicate Called(sys: Sys, ev: Event, size: nat) {
    && SysReachable(0, map[], sys) && sys.ring.dropped == 0
    && sys.held == map[ev.ptr := size] && sys.hooks == map[1 := Outside]
    && sys.ring.cap == 1 && |sys.ring.slots| == 1 && |sys.ring.slots[0].words| == FIELDS
    && sys.ring.head == 1 && sys.ring.tail == 0 && |sys.ring.claimed| == 1 && sys.ring.delivered == []
    && sys.ring.producers.Keys == {1} && sys.ring.P(1) == Idle
  }

  lemma Publish(ev: Event, size: nat) returns (sys: Sys)
    requires !IsFree(ev) && ev.ptr != 0 && Reports(ev, size)
    ensures Inside(sys, ev, size) && sys.ring.head == 1 && |sys.ring.claimed| == 1 && sys.ring.P(1) == Counting(0)
  {
    sys := FillSlot(ev, size);
    assert Index(1, 0) == 0;
    sys := RingStep(sys, Commit(1));
  }

  lemma LeaveMalloc(ev: Event, size: nat) returns (sys: Sys)
    requires !IsFree(ev) && ev.ptr != 0 && Reports(ev, size)
    ensures Called(sys, ev, size) && sys.ring.consumer == Resting
  {
    sys := Publish(ev, size);
    sys := Extend(0, map[], sys, Push(Count(1)));
  }

  lemma StartDrain(ev: Event, size: nat) returns (sys: Sys)
    requires !IsFree(ev) && ev.ptr != 0 && Reports(ev, size)
    ensures Called(sys, ev, size) && sys.ring.consumer == Walking(1, 0, 1, [])
  {
    sys := LeaveMalloc(ev, size);
    sys := RingStep(sys, DrainStart(1));
    sys := RingStep(sys, DrainLoadHead);
  }

  /** Nobody is writing, so the consumer accepts the slot. */
  lemma Accepted(sys: Sys, ev: Event, size: nat)
    requires Called(sys, ev, size)
    ensures sys.ring.log2 == 0 && Index(1, 0) == 0 && Accepts(sys.ring.slots[0].op, OddLap(0, 0))
  {
    ReachableInv(0, map[], sys);
    RingSafety.CheckExact(sys.ring, 0);
    assert RingSafety.HolderOk(sys.ring, 0);
  }

  /** `k` words of the slot copied. */
  ghost predicate Copied(sys: Sys, ev: Event, size: nat, k: nat) {
    && Called(sys, ev, size) && sys.ring.consumer.Copying? && |sys.ring.consumer.words| == k
    && sys.ring.consumer.cursor == 0 && sys.ring.consumer.max == 1 && sys.ring.consumer.batch == []
  }

  lemma CopyWord(sys: Sys, ev: Event, size: nat, k: nat) returns (sys': Sys)
    requires Copied(sys, ev, size, k) && k < FIELDS - 1
    ensures Copied(sys', ev, size, k + 1)
  {
    assert Index(1, 0) == 0;
    sys' := RingStep(sys, DrainCopy);
  }

  lemma CopyWords(ev: Event, size: nat) returns (sys: Sys)
    requires !IsFree(ev) && ev.ptr != 0 && Reports(ev, size)
    ensures Copied(sys, ev, size, FIELDS - 1)
  {
    sys := StartDrain(ev, size);
    Accepted(sys, ev, size);
    sys := RingStep(sys, DrainCheck);
    for k := 0 to FIELDS - 1
      invariant Copied(sys, ev, size, k)
    {
      sys := CopyWord(sys, ev, size, k);
    }
  }

  lemma CopyOut(ev: Event, size: nat) returns (sys: Sys)
    requires !IsFree(ev) && ev.ptr != 0 && Reports(ev, size)
    ensures Called(sys, ev, size) && sys.ring.consumer.Walking?
    ensures sys.ring.consumer.cursor == 1 && sys.ring.consumer.max == 1 && |sys.ring.consumer.batch| == 1
  {
    sys := CopyWords(ev, size);
    assert Index(1, 0) == 0;
    sys := RingStep(sys, DrainCopy);
  }

  /** The whole run: one block held, nothing in flight, everything drained. */
  lemma OneCall(ev: Event, size: nat) returns (sys: Sys)
    requires !IsFree(ev) && ev.ptr != 0 && Reports(ev, size)
    ensures SysReachable(0, map[], sys) && sys.ring.dropped == 0 && Quiescent(sys)
    ensures sys.held == map[ev.ptr := size]
  {
    sys := CopyOut(ev, size);
    IndexInRange(1, 0, 1);
    sys := RingStep(sys, DrainCheck);
    sys := RingStep(sys, DrainStore);
  }

  /** A reachable, drained state with one block of 5 GiB: the consumer counts it, and reports a gigabyte less. */
  lemma LargeBlockFallsShort(origin: nat) returns (sys: Sys)
    ensures SysReachable(0, map[], sys) && sys.ring.dropped == 0 && Quiescent(sys)
    ensures TotalOf(sys.held) == 0x1_4000_0000
    ensures forall st: HeapApps.Model :: st.table == HeapApps.TableAfter(origin, sys.ring.delivered) && HeapApps.Counted(st, sys.ring.delivered) ==>
              st.live == 1 && st.liveBytes == U32_MAX
  {
    var ev := Event(0, 4096, 0x1_4000_0000, U32_MAX, 0, 0, 0, 0);
    sys := OneCall(ev, 0x1_4000_0000);
    OneBlock(sys.held, 4096);
    OneBlock(Reported(sys.held), 4096);
    forall st: HeapApps.Model | st.table == HeapApps.TableAfter(origin, sys.ring.delivered) && HeapApps.Counted(st, sys.ring.delivered)
      ensures st.live == 1 && st.liveBytes == U32_MAX
    {
      CountersAreTheHeap(0, sys, origin, st);
    }
  }

  lemma OneBlock(held: map<Addr, nat>, a: Addr)
    requires held.Keys == {a}
    ensures TotalOf(held) == held[a]
  {
    TotalRemove(held, a);
    assert held - {a} == map[];
  }
}
