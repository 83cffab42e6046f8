/** The allocator hooks of `preload.c` on top of the event ring.

    A hook runs the real allocator and pushes events in the order the source does: an allocating call
    emits after the real call returned, `free` emits before it, and `realloc` does both.  Every push
    is the whole multi-step push of module Ring, so a run interleaves the hooks, the pushes and the
    consumer of any number of threads.  The real allocator is any allocator that hands out addresses
    it is not already holding; the target only passes in blocks it was given and has not released. */
module Interceptor {
  import opened Basics
  import opened Ring
  import RingSafety

  type Addr = nat

  predicate IsFree(e: Event) {
    e.op & OP_MASK == OP_FREE
  }

  /** Whatever the two flag bits, opcode 1 is the free and every other is an allocation. */
  lemma FreeOpcode(e: Event)
    ensures IsFree(e) <==> e.op in {0x01, 0x41, 0x81, 0xC1}
  {
    if e.op & 0x3F == 1 {
      assert e.op & 0xC0 == 0 || e.op & 0xC0 == 0x40 || e.op & 0xC0 == 0x80 || e.op & 0xC0 == 0xC0;
      assert e.op == (e.op & 0x3F) | (e.op & 0xC0);
    }
  }

  datatype Hook =
    | Outside
    | AllocEmit(p: Addr)                 // the real call returned p; its event is being pushed
    | FreeEmit(p: Addr, resize: bool)    // the free event of p is being pushed
    | Released(p: Addr, resize: bool)    // free event pushed; the real free or realloc is next

  /** `held` maps each block the real allocator has handed out to its real usable size, `avail` is what the
      target may pass to a hook now, `owner` who is inside a hook with a block. */
  datatype Sys = Sys(ring: State, held: map<Addr, nat>, avail: set<Addr>, hooks: map<Tid, Hook>, owner: map<Addr, Tid>)
  {
    function H(t: Tid): Hook {
      if t in hooks then hooks[t] else Outside
    }
  }

  datatype SysStep =
    | Malloc(t: Tid, ev: Event, size: nat) // malloc, calloc, memalign: the real call returned ev.ptr
    | Free(t: Tid, ev: Event)
    | Realloc(t: Tid, ev: Event)
    | RealFree(t: Tid)
    | RealRealloc(t: Tid, ev: Event, size: nat) // grown in place, moved, or failed and re-reported
    | Push(step: Step)                     // one step of a push, or of the consumer

  function SysInit(log2: nat, before: map<Addr, nat>): Sys {
    Sys(Ring.Init(log2), before, before.Keys, map[], map[])
  }

  /** `hv_usable`: sizes from 4 GiB on are reported as 2^32 - 1. */
  predicate Reports(ev: Event, size: nat) {
    ev.usable == ClampU32(size)
  }

  /** The sizes as they are reported. */
  function Reported(held: map<Addr, nat>): map<Addr, nat> {
    map a | a in held :: ClampU32(held[a])
  }

  predicate CanBegin(sys: Sys, t: Tid) {
    sys.ring.P(t).Idle?
  }

  predicate SysEnabled(sys: Sys, step: SysStep) {
    match step
    case Malloc(t, ev, size) =>
      && CanBegin(sys, t) && sys.H(t).Outside? && !IsFree(ev) && Reports(ev, size)
      && ev.ptr != 0 && ev.ptr !in sys.held
    case Free(t, ev) => CanBegin(sys, t) && sys.H(t).Outside? && ev.ptr in sys.avail && IsFree(ev)
    case Realloc(t, ev) => CanBegin(sys, t) && sys.H(t).Outside? && ev.ptr in sys.avail && IsFree(ev)
    case RealFree(t) => sys.H(t).Released? && !sys.H(t).resize
    case RealRealloc(t, ev, size) =>
      && CanBegin(sys, t) && sys.H(t).Released? && sys.H(t).resize && !IsFree(ev) && Reports(ev, size)
      && ev.ptr != 0 && (ev.ptr == sys.H(t).p || ev.ptr !in sys.held)
    case Push(s) => !s.Begin? && Ring.Enabled(sys.ring, s)
  }

  function Begun(sys: Sys, t: Tid, ev: Event): State
    requires CanBegin(sys, t)
  {
    Ring.Next(sys.ring, Begin(t, ev))
  }

  /** What the hook does once hv_ring_push has returned. */
  function Returned(sys: Sys, t: Tid): Sys {
    match sys.H(t)
    case AllocEmit(p) => sys.(hooks := sys.hooks[t := Outside], avail := sys.avail + {p}, owner := sys.owner - {p})
    case FreeEmit(p, r) => sys.(hooks := sys.hooks[t := Released(p, r)])
    case _ => sys
  }

  function SysNext(sys: Sys, step: SysStep): Sys
    requires SysEnabled(sys, step)
  {
    match step
    case Malloc(t, ev, size) =>
      sys.(ring := Begun(sys, t, ev), held := sys.held[ev.ptr := size],
           hooks := sys.hooks[t := AllocEmit(ev.ptr)], owner := sys.owner[ev.ptr := t])
    case Free(t, ev) =>
      sys.(ring := Begun(sys, t, ev), avail := sys.avail - {ev.ptr},
           hooks := sys.hooks[t := FreeEmit(ev.ptr, false)], owner := sys.owner[ev.ptr := t])
    case Realloc(t, ev) =>
      sys.(ring := Begun(sys, t, ev), avail := sys.avail - {ev.ptr},
           hooks := sys.hooks[t := FreeEmit(ev.ptr, true)], owner := sys.owner[ev.ptr := t])
    case RealFree(t) =>
      var p := sys.H(t).p;
      sys.(held := sys.held - {p}, hooks := sys.hooks[t := Outside], owner := sys.owner - {p})
    case RealRealloc(t, ev, size) =>
      var p := sys.H(t).p;
      sys.(ring := Begun(sys, t, ev), held := (sys.held - {p})[ev.ptr := size],
           hooks := sys.hooks[t := AllocEmit(ev.ptr)], owner := (sys.owner - {p})[ev.ptr := t])
    case Push(s) =>
      var pushed := sys.(ring := Ring.Next(sys.ring, s));
      if s.Count? || s.Drop? then Returned(pushed, s.t) else pushed
  }

  function SysExec(sys: Sys, run: seq<SysStep>): Option<Sys>
    decreases |run|
  {
    if run == [] then Some(sys)
    else if SysEnabled(sys, run[0]) then SysExec(SysNext(sys, run[0]), run[1..])
    else None
  }

  ghost predicate SysReachable(log2: nat, before: map<Addr, nat>, sys: Sys) {
    exists run :: SysExec(SysInit(log2, before), run) == Some(sys)
  }

  // ---------------------------------------------------------------- replaying a log

  /** The blocks a reader of the log believes live, with the usable size last reported for each. */
  function Replay(log: seq<Event>, before: map<Addr, nat>): map<Addr, nat>
    decreases |log|
  {
    if log == [] then before
    else
      var e := log[|log| - 1];
      var v := Replay(log[..|log| - 1], before);
      if IsFree(e) then v - {e.ptr} else v[e.ptr := e.usable]
  }

  /** Every free is of a block live at that point of the log, every allocation of one that is not. */
  ghost predicate Alternates(log: seq<Event>, before: map<Addr, nat>) {
    forall i :: 0 <= i < |log| ==> (IsFree(log[i]) <==> log[i].ptr in Replay(log[..i], before))
  }

  ghost predicate NoNullAlloc(log: seq<Event>) {
    forall i :: 0 <= i < |log| ==> IsFree(log[i]) || log[i].ptr != 0
  }

  lemma ReplaySnoc(log: seq<Event>, e: Event, before: map<Addr, nat>)
    ensures Replay(log + [e], before) ==
            if IsFree(e) then Replay(log, before) - {e.ptr} else Replay(log, before)[e.ptr := e.usable]
  {
    assert (log + [e])[..|log|] == log;
  }

  lemma AlternatesSnoc(log: seq<Event>, e: Event, before: map<Addr, nat>)
    requires Alternates(log, before) && (IsFree(e) <==> e.ptr in Replay(log, before))
    ensures Alternates(log + [e], before)
  {
    forall i | 0 <= i < |log| + 1
      ensures IsFree((log + [e])[i]) <==> (log + [e])[i].ptr in Replay((log + [e])[..i], before)
    {
      assert (log + [e])[..i] == log[..i];
      assert log[..|log|] == log;
    }
  }

  /** Alternation, address by address: between two consecutive events of one address exactly one is a free,
      so a reader never sees a second allocation before the free. */
  lemma {:induction false} AlternatesPerAddress(log: seq<Event>, before: map<Addr, nat>, i: nat, j: nat)
    requires Alternates(log, before) && i < j < |log| && log[i].ptr == log[j].ptr
    requires forall k :: i < k < j ==> log[k].ptr != log[i].ptr
    ensures IsFree(log[i]) <==> !IsFree(log[j])
  {
    ReplayAt(log, i, before);
    Untouched(log, before, log[i].ptr, i + 1, j);
  }

  lemma {:induction false} Untouched(log: seq<Event>, before: map<Addr, nat>, a: Addr, i: nat, j: nat)
    requires i <= j <= |log| && forall k :: i <= k < j ==> log[k].ptr != a
    ensures a in Replay(log[..i], before) <==> a in Replay(log[..j], before)
    decreases j
  {
    if i < j {
      Untouched(log, before, a, i, j - 1);
      ReplayAt(log, j - 1, before);
    }
  }

  lemma ReplayAt(log: seq<Event>, i: nat, before: map<Addr, nat>)
    requires i < |log|
    ensures Replay(log[..i + 1], before) ==
            if IsFree(log[i]) then Replay(log[..i], before) - {log[i].ptr}
            else Replay(log[..i], before)[log[i].ptr := log[i].usable]
  {
    assert log[..i + 1] == log[..i] + [log[i]];
    ReplaySnoc(log[..i], log[i], before);
  }

  // ---------------------------------------------------------------- invariant

  predicate Claimed(p: Producer) {
    p.Filling? || p.Counting?
  }

  predicate Pending(p: Producer) {
    p.AtHead? || p.AtTail? || p.AtCas?
  }

  ghost predicate HookOk(sys: Sys, t: Tid) {
    var p := sys.ring.P(t);
    match sys.H(t)
    case Outside => p.Idle?
    case AllocEmit(a) =>
      && !p.Idle? && a != 0 && a in sys.owner && sys.owner[a] == t
      && (Pending(p) ==> a in sys.held && p.ev.ptr == a && !IsFree(p.ev) && p.ev.usable == ClampU32(sys.held[a]))
    case FreeEmit(a, _) =>
      && !p.Idle? && a in sys.owner && sys.owner[a] == t
      && (Pending(p) ==> p.ev.ptr == a && IsFree(p.ev))
    case Released(a, _) => p.Idle? && a in sys.owner && sys.owner[a] == t
  }

  ghost predicate OwnerOk(sys: Sys, a: Addr) {
    && (a in sys.owner ==>
          && a in sys.held && a !in sys.avail
          && !sys.H(sys.owner[a]).Outside? && sys.H(sys.owner[a]).p == a)
    && (a in sys.held ==> a in sys.avail || a in sys.owner)
    && (a in sys.avail ==> a in sys.held)
  }

  /** Whether a block inside a hook is live in the log claimed so far. */
  predicate Shown(h: Hook, p: Producer) {
    match h
    case AllocEmit(_) => Claimed(p)
    case FreeEmit(_, _) => !Claimed(p)
    case _ => false
  }

  predicate Visible(sys: Sys, a: Addr) {
    a in sys.held && (a in sys.avail || (a in sys.owner && Shown(sys.H(sys.owner[a]), sys.ring.P(sys.owner[a]))))
  }

  ghost predicate MirrorAt(sys: Sys, before: map<Addr, nat>, a: Addr) {
    var v := Replay(sys.ring.claimed, before);
    (a in v <==> Visible(sys, a)) && (a in v && a in sys.held ==> v[a] == ClampU32(sys.held[a]))
  }

  ghost predicate Mirror(sys: Sys, before: map<Addr, nat>) {
    && Alternates(sys.ring.claimed, before)
    && NoNullAlloc(sys.ring.claimed)
    && forall a: Addr :: MirrorAt(sys, before, a)
  }

  ghost predicate Ownership(sys: Sys) {
    && (forall t :: HookOk(sys, t))
    && (forall a :: OwnerOk(sys, a))
  }

  ghost predicate HooksOk(sys: Sys, before: map<Addr, nat>) {
    && Ownership(sys)
    && (sys.ring.dropped == 0 ==> Mirror(sys, before))
  }

  ghost predicate Inv(sys: Sys, before: map<Addr, nat>) {
    && RingSafety.Inv(sys.ring)
    && HooksOk(sys, before)
  }

  // ---------------------------------------------------------------- preservation

  lemma InitInv(log2: nat, before: map<Addr, nat>)
    requires log2 < 64
    ensures Inv(SysInit(log2, before), Reported(before))
  {
    RingSafety.InitInv(log2);
  }

  lemma MallocInv(sys: Sys, t: Tid, ev: Event, size: nat, sys': Sys, before: map<Addr, nat>)
    requires HooksOk(sys, before) && SysEnabled(sys, Malloc(t, ev, size)) && sys' == SysNext(sys, Malloc(t, ev, size))
    ensures HooksOk(sys', before)
  {
    var _ := (HookOk(sys, t), OwnerOk(sys, ev.ptr));
    forall u: Tid
      ensures HookOk(sys', u)
    {
      var _ := HookOk(sys, u);
    }
    forall a: Addr
      ensures OwnerOk(sys', a)
    {
      var _ := OwnerOk(sys, a);
    }
    if sys.ring.dropped == 0 {
      forall a: Addr
        ensures MirrorAt(sys', before, a)
      {
        var _ := (MirrorAt(sys, before, a), OwnerOk(sys, a));
      }
    }
  }

  lemma GiveUpInv(sys: Sys, t: Tid, ev: Event, step: SysStep, sys': Sys, before: map<Addr, nat>)
    requires HooksOk(sys, before) && SysEnabled(sys, step) && sys' == SysNext(sys, step)
    requires step == Free(t, ev) || step == Realloc(t, ev)
    ensures HooksOk(sys', before)
  {
    GiveUpOwners(sys, t, ev, step, sys', before);
    var _ := (HookOk(sys, t), OwnerOk(sys, ev.ptr));
    if sys.ring.dropped == 0 {
      forall a: Addr
        ensures MirrorAt(sys', before, a)
      {
        var _ := (MirrorAt(sys, before, a), OwnerOk(sys, a));
      }
    }
  }

  lemma GiveUpOwners(sys: Sys, t: Tid, ev: Event, step: SysStep, sys': Sys, before: map<Addr, nat>)
    requires HooksOk(sys, before) && SysEnabled(sys, step) && sys' == SysNext(sys, step)
    requires step == Free(t, ev) || step == Realloc(t, ev)
    ensures Ownership(sys')
  {
    var _ := (HookOk(sys, t), OwnerOk(sys, ev.ptr));
    forall u: Tid
      ensures HookOk(sys', u)
    {
      var _ := HookOk(sys, u);
    }
    forall a: Addr
      ensures OwnerOk(sys', a)
    {
      var _ := OwnerOk(sys, a);
    }
  }

  lemma RealReallocInv(sys: Sys, t: Tid, ev: Event, size: nat, sys': Sys, before: map<Addr, nat>)
    requires HooksOk(sys, before) && SysEnabled(sys, RealRealloc(t, ev, size)) && sys' == SysNext(sys, RealRealloc(t, ev, size))
    ensures HooksOk(sys', before)
  {
    var _ := (HookOk(sys, t), OwnerOk(sys, ev.ptr));
    forall u: Tid
      ensures HookOk(sys', u)
    {
      var _ := HookOk(sys, u);
    }
    forall a: Addr
      ensures OwnerOk(sys', a)
    {
      var _ := OwnerOk(sys, a);
    }
    if sys.ring.dropped == 0 {
      forall a: Addr
        ensures MirrorAt(sys', before, a)
      {
        var _ := (MirrorAt(sys, before, a), OwnerOk(sys, a));
      }
    }
  }

  lemma RealFreeInv(sys: Sys, t: Tid, sys': Sys, before: map<Addr, nat>)
    requires HooksOk(sys, before) && SysEnabled(sys, RealFree(t)) && sys' == SysNext(sys, RealFree(t))
    ensures HooksOk(sys', before)
  {
    var _ := HookOk(sys, t);
    forall u: Tid
      ensures HookOk(sys', u)
    {
      var _ := HookOk(sys, u);
    }
    forall a: Addr
      ensures OwnerOk(sys', a)
    {
      var _ := OwnerOk(sys, a);
    }
    if sys.ring.dropped == 0 {
      forall a: Addr
        ensures MirrorAt(sys', before, a)
      {
        var _ := (MirrorAt(sys, before, a), OwnerOk(sys, a));
      }
    }
  }

  /** A push ended: the hook moves on, and the log already tells its story. */
  lemma CountedInv(sys: Sys, t: Tid, sys': Sys, before: map<Addr, nat>)
    requires HooksOk(sys, before) && SysEnabled(sys, Push(Count(t))) && sys' == SysNext(sys, Push(Count(t)))
    ensures HooksOk(sys', before)
  {
    CountedOwners(sys, t, sys', before);
    var _ := HookOk(sys, t);
    if sys'.ring.dropped == 0 {
      forall a: Addr
        ensures MirrorAt(sys', before, a)
      {
        var _ := (MirrorAt(sys, before, a), OwnerOk(sys, a));
      }
    }
  }

  lemma CountedOwners(sys: Sys, t: Tid, sys': Sys, before: map<Addr, nat>)
    requires HooksOk(sys, before) && SysEnabled(sys, Push(Count(t))) && sys' == SysNext(sys, Push(Count(t)))
    ensures Ownership(sys')
  {
    var _ := HookOk(sys, t);
    forall u: Tid
      ensures HookOk(sys', u)
    {
      var _ := HookOk(sys, u);
    }
    forall a: Addr
      ensures OwnerOk(sys', a)
    {
      var _ := OwnerOk(sys, a);
    }
  }

  lemma DroppedInv(sys: Sys, t: Tid, sys': Sys, before: map<Addr, nat>)
    requires HooksOk(sys, before) && SysEnabled(sys, Push(Drop(t))) && sys' == SysNext(sys, Push(Drop(t)))
    ensures HooksOk(sys', before)
  {
    var _ := HookOk(sys, t);
    forall u: Tid
      ensures HookOk(sys', u)
    {
      var _ := HookOk(sys, u);
    }
    forall a: Addr
      ensures OwnerOk(sys', a)
    {
      var _ := OwnerOk(sys, a);
    }
  }

  /** The one step that extends the log: the claim of an event. */
  lemma ClaimInv(sys: Sys, t: Tid, sys': Sys, before: map<Addr, nat>)
    requires HooksOk(sys, before) && SysEnabled(sys, Push(Cas(t, false))) && sys' == SysNext(sys, Push(Cas(t, false)))
    requires sys.ring.head == sys.ring.P(t).head
    ensures HooksOk(sys', before)
  {
    ClaimOwners(sys, t, sys', before);
    var ev := sys.ring.P(t).ev;
    var _ := (HookOk(sys, t), OwnerOk(sys, ev.ptr));
    if sys'.ring.dropped == 0 {
      var _ := MirrorAt(sys, before, ev.ptr);
      AlternatesSnoc(sys.ring.claimed, ev, before);
      forall a: Addr
        ensures MirrorAt(sys', before, a)
      {
        var _ := (MirrorAt(sys, before, a), OwnerOk(sys, a));
        if a == ev.ptr {
          ClaimMirrorOwn(sys, t, sys', before);
        } else {
          ClaimMirrorOther(sys, t, sys', before, a);
        }
      }
    }
  }

  /** At the address claimed. */
  lemma ClaimMirrorOwn(sys: Sys, t: Tid, sys': Sys, before: map<Addr, nat>)
    requires SysEnabled(sys, Push(Cas(t, false))) && sys' == SysNext(sys, Push(Cas(t, false)))
    requires HookOk(sys, t) && OwnerOk(sys, sys.ring.P(t).ev.ptr)
    requires sys.ring.head == sys.ring.P(t).head && MirrorAt(sys, before, sys.ring.P(t).ev.ptr)
    ensures MirrorAt(sys', before, sys.ring.P(t).ev.ptr)
  {
    ReplaySnoc(sys.ring.claimed, sys.ring.P(t).ev, before);
  }

  /** Everywhere else: another thread's block is as visible as before. */
  lemma ClaimMirrorOther(sys: Sys, t: Tid, sys': Sys, before: map<Addr, nat>, a: Addr)
    requires SysEnabled(sys, Push(Cas(t, false))) && sys' == SysNext(sys, Push(Cas(t, false)))
    requires HookOk(sys, t) && OwnerOk(sys, a) && a != sys.ring.P(t).ev.ptr
    requires sys.ring.head == sys.ring.P(t).head && MirrorAt(sys, before, a)
    ensures MirrorAt(sys', before, a)
  {
    ReplaySnoc(sys.ring.claimed, sys.ring.P(t).ev, before);
    assert Visible(sys', a) <==> Visible(sys, a);
  }

  lemma ClaimOwners(sys: Sys, t: Tid, sys': Sys, before: map<Addr, nat>)
    requires HooksOk(sys, before) && SysEnabled(sys, Push(Cas(t, false))) && sys' == SysNext(sys, Push(Cas(t, false)))
    requires sys.ring.head == sys.ring.P(t).head
    ensures Ownership(sys')
  {
    var ev := sys.ring.P(t).ev;
    var _ := (HookOk(sys, t), OwnerOk(sys, ev.ptr));
    forall u: Tid
      ensures HookOk(sys', u)
    {
      var _ := HookOk(sys, u);
    }
    forall a: Addr
      ensures OwnerOk(sys', a)
    {
      var _ := OwnerOk(sys, a);
    }
  }

  /** Nothing the hooks look at: no producer crosses its claim, starts or ends a push. */
  ghost predicate Quiet(p: Producer, p': Producer) {
    && (p.Idle? <==> p'.Idle?)
    && (Claimed(p) <==> Claimed(p'))
    && (Pending(p') ==> Pending(p) && p'.ev == p.ev)
  }

  ghost predicate QuietRing(ring: State, ring': State) {
    && ring'.claimed == ring.claimed
    && ring'.dropped == ring.dropped
    && forall u: Tid :: Quiet(ring.P(u), ring'.P(u))
  }

  lemma QuietStep(ring: State, s: Step)
    requires Ring.Enabled(ring, s) && !s.Begin? && !s.Count? && !s.Drop?
    requires s.Cas? ==> s.spurious || ring.head != ring.P(s.t).head
    ensures QuietRing(ring, Ring.Next(ring, s))
  {
  }

  lemma QuietPushInv(sys: Sys, sys': Sys, before: map<Addr, nat>)
    requires HooksOk(sys, before) && QuietRing(sys.ring, sys'.ring) && sys' == sys.(ring := sys'.ring)
    ensures HooksOk(sys', before)
  {
    forall u: Tid
      ensures HookOk(sys', u)
    {
      var _ := (HookOk(sys, u), Quiet(sys.ring.P(u), sys'.ring.P(u)));
    }
    forall a: Addr
      ensures OwnerOk(sys', a)
    {
      var _ := OwnerOk(sys, a);
    }
    if sys'.ring.dropped == 0 {
      forall a: Addr
        ensures MirrorAt(sys', before, a)
      {
        var _ := (MirrorAt(sys, before, a), OwnerOk(sys, a));
        if a in sys.owner {
          var _ := Quiet(sys.ring.P(sys.owner[a]), sys'.ring.P(sys.owner[a]));
        }
      }
    }
  }

  lemma StepInv(sys: Sys, step: SysStep, before: map<Addr, nat>)
    requires Inv(sys, before) && SysEnabled(sys, step)
    ensures Inv(SysNext(sys, step), before)
  {
    var sys' := SysNext(sys, step);
    match step
    case Malloc(t, ev, size) =>
      RingSafety.StepInv(sys.ring, Begin(t, ev));
      MallocInv(sys, t, ev, size, sys', before);
    case Free(t, ev) =>
      RingSafety.StepInv(sys.ring, Begin(t, ev));
      GiveUpInv(sys, t, ev, step, sys', before);
    case Realloc(t, ev) =>
      RingSafety.StepInv(sys.ring, Begin(t, ev));
      GiveUpInv(sys, t, ev, step, sys', before);
    case RealFree(t) => RealFreeInv(sys, t, sys', before);
    case RealRealloc(t, ev, size) =>
      RingSafety.StepInv(sys.ring, Begin(t, ev));
      RealReallocInv(sys, t, ev, size, sys', before);
    case Push(s) =>
      RingSafety.StepInv(sys.ring, s);
      if s.Count? {
        CountedInv(sys, s.t, sys', before);
      } else if s.Drop? {
        DroppedInv(sys, s.t, sys', before);
      } else if s.Cas? && !s.spurious && sys.ring.head == sys.ring.P(s.t).head {
        ClaimInv(sys, s.t, sys', before);
      } else {
        QuietStep(sys.ring, s);
        QuietPushInv(sys, sys', before);
      }
  }

  lemma {:induction false} RunInv(sys: Sys, run: seq<SysStep>, before: map<Addr, nat>)
    requires Inv(sys, before)
    ensures SysExec(sys, run).Some? ==> Inv(SysExec(sys, run).value, before)
    decreases |run|
  {
    if run != [] && SysEnabled(sys, run[0]) {
      StepInv(sys, run[0], before);
      RunInv(SysNext(sys, run[0]), run[1..], before);
    }
  }

  lemma ReachableInv(log2: nat, before: map<Addr, nat>, sys: Sys)
    requires log2 < 64 && SysReachable(log2, before, sys)
    ensures Inv(sys, Reported(before))
  {
    var run :| SysExec(SysInit(log2, before), run) == Some(sys);
    InitInv(log2, before);
    RunInv(SysInit(log2, before), run, Reported(before));
  }

  // ---------------------------------------------------------------- what every run guarantees

  /** In every run without drops the events of the target, in claim order, alternate per address. */
  lemma ClaimsAlternate(log2: nat, before: map<Addr, nat>, sys: Sys)
    requires log2 < 64 && SysReachable(log2, before, sys) && sys.ring.dropped == 0
    ensures Alternates(sys.ring.claimed, Reported(before))
  {
    ReachableInv(log2, before, sys);
  }

  lemma {:induction false} ReplayClean(log: seq<Event>, seen: seq<Event>, before: map<Addr, nat>)
    requires |seen| <= |log| && forall i :: 0 <= i < |seen| ==> seen[i] == Clean(log[i])
    ensures Replay(seen, before) == Replay(log[..|seen|], before)
    decreases |seen|
  {
    if seen == [] {
      assert log[..0] == [];
    } else {
      var n := |seen| - 1;
      ReplayClean(log, seen[..n], before);
      ReplayAt(log, n, before);
      assert seen[..n] + [seen[n]] == seen;
      ReplaySnoc(seen[..n], seen[n], before);
    }
  }

  /** So does what the consumer is handed, at every point of every run. */
  lemma DeliveriesAlternate(log2: nat, before: map<Addr, nat>, sys: Sys)
    requires log2 < 64 && SysReachable(log2, before, sys) && sys.ring.dropped == 0
    ensures Alternates(sys.ring.delivered, Reported(before)) && NoNullAlloc(sys.ring.delivered)
  {
    ReachableInv(log2, before, sys);
    var log, seen := sys.ring.claimed, sys.ring.delivered;
    forall i | 0 <= i < |seen|
      ensures IsFree(seen[i]) <==> seen[i].ptr in Replay(seen[..i], Reported(before))
    {
      ReplayClean(log, seen[..i], Reported(before));
    }
  }

  /** The target is between calls and everything it emitted has been drained. */
  ghost predicate Quiescent(sys: Sys) {
    && (forall t: Tid :: sys.H(t).Outside?)
    && |sys.ring.delivered| == |sys.ring.claimed|
  }

  /** The point of the tool: whenever the target is between calls and the ring is drained, replaying what
      the consumer was handed gives exactly the blocks the real allocator is holding, with their sizes as far
      as they can be reported. */
  lemma QuiescentReplayIsHeap(log2: nat, before: map<Addr, nat>, sys: Sys)
    requires log2 < 64 && SysReachable(log2, before, sys) && sys.ring.dropped == 0 && Quiescent(sys)
    ensures Replay(sys.ring.delivered, Reported(before)) == Reported(sys.held)
  {
    ReachableInv(log2, before, sys);
    var log, base := sys.ring.claimed, Reported(before);
    ReplayClean(log, sys.ring.delivered, base);
    assert log[..|log|] == log;
    var v := Replay(log, base);
    forall a: Addr
      ensures a in v <==> a in sys.held
      ensures a in v ==> v[a] == ClampU32(sys.held[a])
    {
      var _ := (MirrorAt(sys, base, a), OwnerOk(sys, a));
    }
  }

  // ---------------------------------------------------------------- blocks nobody has touched

  ghost predicate Mentioned(log: seq<Event>, a: Addr) {
    exists i :: 0 <= i < |log| && log[i].ptr == a
  }

  lemma {:induction false} UnmentionedStays(log: seq<Event>, base: map<Addr, nat>, a: Addr)
    requires !Mentioned(log, a)
    ensures a in Replay(log, base) <==> a in base
  {
    if log != [] {
      var n := |log| - 1;
      assert log[n].ptr != a;
      assert forall i :: 0 <= i < n ==> log[..n][i] == log[i];
      UnmentionedStays(log[..n], base, a);
    }
  }

  /** A block from before the session that no event has mentioned is still held, at its real size. */
  ghost predicate StillThere(sys: Sys, before: map<Addr, nat>, a: Addr) {
    a in before && !Mentioned(sys.ring.claimed, a) ==> a in sys.held && sys.held[a] == before[a]
  }

  lemma RingGrows(ring: State, s: Step, ring': State)
    requires Ring.Enabled(ring, s) && ring' == Ring.Next(ring, s)
    ensures ring.claimed <= ring'.claimed && ring.dropped <= ring'.dropped
  {
  }

  lemma SysGrows(sys: Sys, step: SysStep, sys': Sys)
    requires SysEnabled(sys, step) && sys' == SysNext(sys, step)
    ensures sys.ring.claimed <= sys'.ring.claimed && sys.ring.dropped <= sys'.ring.dropped
  {
    if step.Push? {
      RingGrows(sys.ring, step.step, Ring.Next(sys.ring, step.step));
    }
  }

  /** Only the real calls change what is held, and not what the log shows. */
  lemma VisibleKept(sys: Sys, step: SysStep, sys': Sys, a: Addr)
    requires Ownership(sys) && SysEnabled(sys, step) && sys' == SysNext(sys, step) && Visible(sys, a)
    ensures a in sys'.held && sys'.held[a] == sys.held[a]
  {
    var _ := OwnerOk(sys, a);
    if step.RealFree? || step.RealRealloc? {
      var _ := HookOk(sys, step.t);
    }
  }

  lemma {:induction false} StillMentioned(log: seq<Event>, log': seq<Event>, a: Addr)
    requires log <= log' && Mentioned(log, a)
    ensures Mentioned(log', a)
  {
    var i :| 0 <= i < |log| && log[i].ptr == a;
    assert log'[i].ptr == a;
  }

  lemma StepUntouched(sys: Sys, step: SysStep, sys': Sys, before: map<Addr, nat>, a: Addr)
    requires Ownership(sys) && MirrorAt(sys, Reported(before), a) && StillThere(sys, before, a)
    requires SysEnabled(sys, step) && sys' == SysNext(sys, step)
    ensures StillThere(sys', before, a)
  {
    var log := sys.ring.claimed;
    SysGrows(sys, step, sys');
    if Mentioned(log, a) {
      StillMentioned(log, sys'.ring.claimed, a);
    } else if a in before {
      UnmentionedStays(log, Reported(before), a);
      VisibleKept(sys, step, sys', a);
    }
  }

  lemma {:induction false} RunUntouched(sys: Sys, run: seq<SysStep>, before: map<Addr, nat>, a: Addr)
    requires Inv(sys, Reported(before)) && StillThere(sys, before, a)
    requires SysExec(sys, run).Some? && SysExec(sys, run).value.ring.dropped == 0
    ensures StillThere(SysExec(sys, run).value, before, a)
    decreases |run|
  {
    if run != [] {
      DropsGrow(sys, run);
      var _ := MirrorAt(sys, Reported(before), a);
      OneUntouched(sys, run[0], SysNext(sys, run[0]), before, a);
      RunUntouched(SysNext(sys, run[0]), run[1..], before, a);
    }
  }

  lemma OneUntouched(sys: Sys, step: SysStep, sys': Sys, before: map<Addr, nat>, a: Addr)
    requires Inv(sys, Reported(before)) && StillThere(sys, before, a) && sys.ring.dropped == 0
    requires SysEnabled(sys, step) && sys' == SysNext(sys, step)
    ensures Inv(sys', Reported(before)) && StillThere(sys', before, a)
  {
    StepInv(sys, step, Reported(before));
    var _ := MirrorAt(sys, Reported(before), a);
    StepUntouched(sys, step, sys', before, a);
  }

  lemma {:induction false} DropsGrow(sys: Sys, run: seq<SysStep>)
    ensures SysExec(sys, run).Some? ==> sys.ring.dropped <= SysExec(sys, run).value.ring.dropped
    decreases |run|
  {
    if run != [] && SysEnabled(sys, run[0]) {
      SysGrows(sys, run[0], SysNext(sys, run[0]));
      DropsGrow(SysNext(sys, run[0]), run[1..]);
    }
  }

  lemma ReachableUntouched(log2: nat, before: map<Addr, nat>, sys: Sys, a: Addr)
    requires log2 < 64 && SysReachable(log2, before, sys) && sys.ring.dropped == 0
    ensures StillThere(sys, before, a)
  {
    var run :| SysExec(SysInit(log2, before), run) == Some(sys);
    InitInv(log2, before);
    RunUntouched(SysInit(log2, before), run, before, a);
  }

  // ---------------------------------------------------------------- building runs

  lemma Extend(log2: nat, before: map<Addr, nat>, sys: Sys, step: SysStep) returns (sys': Sys)
    requires SysReachable(log2, before, sys) && SysEnabled(sys, step)
    ensures sys' == SysNext(sys, step) && SysReachable(log2, before, sys')
  {
    sys' := SysNext(sys, step);
    var run :| SysExec(SysInit(log2, before), run) == Some(sys);
    ExecSnoc(SysInit(log2, before), run, step);
    assert SysExec(SysInit(log2, before), run + [step]) == Some(sys');
  }

  lemma {:induction false} ExecSnoc(sys: Sys, run: seq<SysStep>, step: SysStep)
    requires SysExec(sys, run).Some? && SysEnabled(SysExec(sys, run).value, step)
    ensures SysExec(sys, run + [step]) == Some(SysNext(SysExec(sys, run).value, step))
    decreases |run|
  {
    if run == [] {
      assert [step][1..] == [];
    } else {
      assert (run + [step])[1..] == run[1..] + [step];
      ExecSnoc(SysNext(sys, run[0]), run[1..], step);
    }
  }
}
