/** Safety of the event ring over every interleaving: the invariant, its preservation by each step,
    and what it gives the producers and the consumer. */
module RingSafety {
  import opened Basics
  import opened Bits
  import opened Ring

  // ---------------------------------------------------------------- invariant

  /** The next sequence number the consumer will look at. */
  function Cursor(st: State): nat {
    match st.consumer
    case Walking(_, c, _, _) => c
    case Copying(_, c, _, _, _, _) => c
    case Storing(c, _) => c
    case _ => st.tail
  }

  /** Claimed, and its `op` byte not stored yet. */
  predicate InFlight(st: State, s: nat) {
    s in st.holder && st.P(st.holder[s]).Filling?
  }

  ghost predicate Shape(st: State) {
    && st.log2 < 64
    && st.cap == Pow2(st.log2) < WORD
    && |st.slots| == st.cap
    && (forall i :: 0 <= i < |st.slots| ==> |st.slots[i].words| == FIELDS)
  }

  ghost predicate Counters(st: State) {
    && st.tail <= st.head <= st.tail + st.cap
    && |st.claimed| == st.head
    && |st.delivered| == st.tail
    && (forall i :: 0 <= i < st.tail ==> st.delivered[i] == Clean(st.claimed[i]))
  }

  ghost predicate ProducerOk(st: State, t: Tid) {
    match st.P(t)
    case AtTail(_, h) => h <= st.head && h <= st.tail + st.cap
    case AtCas(_, h) => h <= st.head && h < st.tail + st.cap
    case Filling(ev, s, k) =>
      && k <= FIELDS
      && Cursor(st) <= s < |st.claimed|
      && st.claimed[s] == ev
      && s in st.holder
      && st.holder[s] == t
    case Counting(s) => s < |st.claimed| && s in st.holder && st.holder[s] == t
    case _ => true
  }

  ghost predicate HolderOk(st: State, s: nat) {
    s in st.holder ==>
      var p := st.P(st.holder[s]);
      s < st.head && (p.Filling? || p.Counting?) && p.seqNo == s
  }

  ghost predicate Holders(st: State) {
    && (forall t :: ProducerOk(st, t))
    && (forall s :: HolderOk(st, s))
    && |st.holder| + st.total == st.head
  }

  /** The `op` byte a slot still carries before sequence number `s` is published in it. */
  function StaleOp(st: State, s: nat): bv8 {
    var was := s - st.cap;
    if 0 <= was < |st.claimed| then Published(st.claimed[was].op, OddLap(st.log2, was)) else 0
  }

  /** What the slot of `s` holds, for `s` within one lap of the tail. */
  ghost predicate SlotOk(st: State, s: nat) {
    st.tail <= s < st.tail + st.cap ==>
      && SlotThere(st, s)
      && var slot := st.slots[Index(st.cap, s)];
      if s < |st.claimed| && !InFlight(st, s) then
        slot == Slot(Words(st.claimed[s]), Published(st.claimed[s].op, OddLap(st.log2, s)))
      else
        && slot.op == StaleOp(st, s)
        && (s < |st.claimed| ==> FilledTo(slot.words, Words(st.claimed[s]), st.P(st.holder[s]).k))
  }

  ghost predicate FilledTo(words: seq<nat>, want: seq<nat>, k: nat) {
    |words| == |want| && k <= |want| && forall j :: 0 <= j < k ==> words[j] == want[j]
  }

  ghost predicate BatchOk(st: State, cursor: nat, batch: seq<Event>) {
    && cursor == st.tail + |batch|
    && cursor <= |st.claimed|
    && (forall i :: 0 <= i < |batch| ==> batch[i] == Clean(st.claimed[st.tail + i]))
  }

  ghost predicate ConsumerOk(st: State) {
    match st.consumer
    case Resting => true
    case Loading(_, start) => start == st.tail
    case Walking(_, c, hd, batch) => BatchOk(st, c, batch) && c <= hd <= st.head
    case Copying(_, c, hd, batch, op, words) =>
      && BatchOk(st, c, batch)
      && c < hd <= st.head
      && c < |st.claimed|
      && !InFlight(st, c)
      && op == Published(st.claimed[c].op, OddLap(st.log2, c))
      && |words| < FIELDS
      && (forall j :: 0 <= j < |words| ==> words[j] == Words(st.claimed[c])[j])
    case Storing(c, batch) => BatchOk(st, c, batch)
  }

  ghost predicate Inv(st: State) {
    && Shape(st)
    && Counters(st)
    && Holders(st)
    && (forall s :: SlotOk(st, s))
    && ConsumerOk(st)
  }

  // ---------------------------------------------------------------- preservation

  lemma InitInv(log2: nat)
    requires log2 < 64
    ensures Inv(Init(log2))
  {
    var st := Init(log2);
    Pow2Below(log2, 64);
    assert Pow2(64) == WORD by { Pow2Of64(); }
    forall s: nat
      ensures SlotOk(st, s)
    {
      IndexInRange(Pow2(log2), log2, s);
    }
  }

  lemma {:induction false} Pow2Below(a: nat, b: nat)
    requires a < b
    ensures Pow2(a) < Pow2(b)
    decreases b
  {
    if a < b - 1 {
      Pow2Below(a, b - 1);
    }
  }

  /** A producer that neither held nor takes a slot moves freely. */
  lemma QuietMove(st: State, t: Tid, p: Producer)
    requires Inv(st)
    requires !st.P(t).Filling? && !st.P(t).Counting? && !p.Filling? && !p.Counting?
    requires ProducerOk(st.With(t, p), t)
    ensures Inv(st.With(t, p))
  {
    var st' := st.With(t, p);
    forall u: Tid
      ensures ProducerOk(st', u)
    {
      var _ := ProducerOk(st, u);
    }
    forall s: nat
      ensures HolderOk(st', s) && (InFlight(st', s) <==> InFlight(st, s)) && SlotOk(st', s)
    {
      QuietSlot(st, t, p, st', s);
    }
  }

  lemma QuietSlot(st: State, t: Tid, p: Producer, st': State, s: nat)
    requires HolderOk(st, s) && SlotOk(st, s) && st' == st.With(t, p)
    requires !st.P(t).Filling? && !st.P(t).Counting? && !p.Filling? && !p.Counting?
    ensures HolderOk(st', s) && (InFlight(st', s) <==> InFlight(st, s)) && SlotOk(st', s)
  {
  }

  lemma LoadTailInv(st: State, t: Tid, st': State)
    requires Inv(st) && st.P(t).AtTail?
    requires st' == Next(st, LoadTail(t))
    ensures Inv(st')
  {
    assert ProducerOk(st, t);
    var p := st.P(t);
    if WrapSub(p.head, st.tail) >= st.cap {
      QuietMove(st, t, Dropping);
    } else {
      RoomTest(p.head, st.tail, st.cap);
      QuietMove(st, t, AtCas(p.ev, p.head));
    }
  }

  /** What the wrapped comparison of hv_ring_push decides. */
  lemma RoomTest(h: nat, t: nat, cap: nat)
    requires h <= t + cap && cap < WORD
    ensures h >= t ==> WrapSub(h, t) == h - t
    ensures WrapSub(h, t) < cap ==> h < t + cap
    ensures t - WORD + cap <= h < t ==> WrapSub(h, t) >= cap
  {
  }

  lemma CasHolders(st: State, t: Tid, st': State)
    requires Inv(st) && st.P(t).AtCas? && st.P(t).head == st.head && st' == Next(st, Cas(t, false))
    ensures Holders(st')
  {
    assert st.head !in st.holder by { var _ := HolderOk(st, st.head); }
    forall u: Tid
      ensures ProducerOk(st', u)
    {
      var _ := ProducerOk(st, u);
    }
    forall s: nat
      ensures HolderOk(st', s)
    {
      var _ := HolderOk(st, s);
    }
  }

  lemma CasInv(st: State, t: Tid, st': State)
    requires Inv(st) && st.P(t).AtCas? && st.P(t).head == st.head
    requires st' == Next(st, Cas(t, false))
    ensures Inv(st')
  {
    CasHolders(st, t, st');
    var _ := (ProducerOk(st, t), HolderOk(st, st.head));
    forall s: nat
      ensures (InFlight(st', s) <==> InFlight(st, s) || s == st.head) && SlotOk(st', s)
    {
      CasSlot(st, t, st', s);
    }
  }

  lemma CasSlot(st: State, t: Tid, st': State, s: nat)
    requires Inv(st) && st.P(t).AtCas? && st.P(t).head == st.head
    requires st' == Next(st, Cas(t, false))
    ensures (InFlight(st', s) <==> InFlight(st, s) || s == st.head) && SlotOk(st', s)
  {
    var _ := (ProducerOk(st, t), HolderOk(st, st.head), HolderOk(st, s), SlotOk(st, s));
  }

  lemma WriteFieldSlot(st: State, t: Tid, st': State, s: nat)
    requires Inv(st) && Enabled(st, WriteField(t)) && st' == Next(st, WriteField(t))
    ensures SlotOk(st', s)
  {
    var n := st.P(t).seqNo;
    var _ := (ProducerOk(st, t), HolderOk(st, s), SlotOk(st, s), HolderOk(st, n));
    if st.tail <= s < st.tail + st.cap {
      SameSlot(st.cap, st.log2, s, n);
    }
  }

  lemma WriteFieldInv(st: State, t: Tid, st': State)
    requires Inv(st) && Enabled(st, WriteField(t)) && st' == Next(st, WriteField(t))
    ensures Inv(st')
  {
    var _ := ProducerOk(st, t);
    forall u: Tid
      ensures ProducerOk(st', u)
    {
      var _ := ProducerOk(st, u);
    }
    forall s: nat
      ensures HolderOk(st', s) && (InFlight(st', s) <==> InFlight(st, s)) && SlotOk(st', s)
    {
      var _ := HolderOk(st, s);
      WriteFieldSlot(st, t, st', s);
    }
  }

  lemma CommitSlot(st: State, t: Tid, st': State, s: nat)
    requires Inv(st) && Enabled(st, Commit(t)) && st' == Next(st, Commit(t))
    ensures SlotOk(st', s)
  {
    var n := st.P(t).seqNo;
    var _ := (ProducerOk(st, t), HolderOk(st, s), SlotOk(st, s), HolderOk(st, n));
    if st.tail <= s < st.tail + st.cap {
      SameSlot(st.cap, st.log2, s, n);
      if s == n {
        assert st.slots[Index(st.cap, s)].words == Words(st.P(t).ev);
      }
    }
  }

  lemma CommitInv(st: State, t: Tid, st': State)
    requires Inv(st) && Enabled(st, Commit(t)) && st' == Next(st, Commit(t))
    ensures Inv(st')
  {
    CommitHolders(st, t, st');
    forall s: nat
      ensures (InFlight(st', s) ==> InFlight(st, s)) && SlotOk(st', s)
    {
      var _ := HolderOk(st, s);
      CommitSlot(st, t, st', s);
    }
  }

  lemma CommitHolders(st: State, t: Tid, st': State)
    requires Inv(st) && Enabled(st, Commit(t)) && st' == Next(st, Commit(t))
    ensures Holders(st')
  {
    var _ := ProducerOk(st, t);
    forall u: Tid
      ensures ProducerOk(st', u)
    {
      var _ := ProducerOk(st, u);
    }
    forall s: nat
      ensures HolderOk(st', s)
    {
      var _ := HolderOk(st, s);
    }
  }

  lemma CountHolders(st: State, t: Tid, st': State)
    requires Inv(st) && st.P(t).Counting? && st' == Next(st, Count(t))
    ensures Holders(st')
  {
    var n := st.P(t).seqNo;
    var _ := ProducerOk(st, t);
    assert st'.holder.Keys == st.holder.Keys - {n};
    assert |st'.holder.Keys| == |st.holder.Keys| - 1;
    forall u: Tid
      ensures ProducerOk(st', u)
    {
      var _ := ProducerOk(st, u);
    }
    forall s: nat
      ensures HolderOk(st', s)
    {
      var _ := HolderOk(st, s);
    }
  }

  lemma CountInv(st: State, t: Tid, st': State)
    requires Inv(st) && st.P(t).Counting? && st' == Next(st, Count(t))
    ensures Inv(st')
  {
    CountHolders(st, t, st');
    forall s: nat
      ensures (InFlight(st', s) <==> InFlight(st, s)) && SlotOk(st', s)
    {
      CountSlot(st, t, st', s);
    }
  }

  lemma CountSlot(st: State, t: Tid, st': State, s: nat)
    requires Inv(st) && st.P(t).Counting? && st' == Next(st, Count(t))
    ensures (InFlight(st', s) <==> InFlight(st, s)) && SlotOk(st', s)
  {
    var _ := (ProducerOk(st, t), HolderOk(st, s), SlotOk(st, s));
  }

  /** The flag test passes exactly when the slot is no longer in flight. */
  lemma CheckExact(st: State, c: nat)
    requires Inv(st) && st.tail <= c < st.head
    ensures Index(st.cap, c) < |st.slots|
    ensures Accepts(st.slots[Index(st.cap, c)].op, OddLap(st.log2, c)) <==> !InFlight(st, c)
  {
    assert SlotOk(st, c) && HolderOk(st, c);
    IndexInRange(st.cap, st.log2, c);
    if InFlight(st, c) {
      if c >= st.cap {
        NextLap(st.cap, st.log2, c - st.cap);
        PublishedAccepted(st.claimed[c - st.cap].op, OddLap(st.log2, c - st.cap), OddLap(st.log2, c));
      } else {
        PublishedAccepted(0, false, OddLap(st.log2, c));
      }
    } else {
      PublishedAccepted(st.claimed[c].op, OddLap(st.log2, c), OddLap(st.log2, c));
    }
  }

  /** A consumer step that leaves the shared fields alone and does not pass an in-flight slot. */
  lemma ConsumerMove(st: State, c: Consumer)
    requires Inv(st)
    requires ConsumerOk(st.(consumer := c))
    requires Cursor(st) <= Cursor(st.(consumer := c))
    requires forall s :: Cursor(st) <= s < Cursor(st.(consumer := c)) ==> !InFlight(st, s)
    ensures Inv(st.(consumer := c))
  {
    var st' := st.(consumer := c);
    forall u: Tid
      ensures ProducerOk(st', u)
    {
      assert ProducerOk(st, u);
      if st.P(u).Filling? {
        assert InFlight(st, st.P(u).seqNo);
      }
    }
    forall s: nat
      ensures HolderOk(st', s) && (InFlight(st', s) <==> InFlight(st, s)) && SlotOk(st', s)
    {
      var _ := (HolderOk(st, s), SlotOk(st, s));
    }
  }

  lemma DrainCheckInv(st: State, st': State)
    requires Inv(st) && Enabled(st, DrainCheck)
    requires st' == Next(st, DrainCheck)
    ensures Inv(st')
  {
    var c := st.consumer;
    if |c.batch| < c.max && c.cursor != c.head {
      CheckExact(st, c.cursor);
      assert SlotOk(st, c.cursor);
    }
    ConsumerMove(st, st'.consumer);
  }

  lemma CopyLast(st: State)
    requires Inv(st) && st.consumer.Copying? && |st.consumer.words| == FIELDS - 1
    requires SlotThere(st, st.consumer.cursor)
    ensures var c := st.consumer;
            var word := st.slots[Index(st.cap, c.cursor)].words[FIELDS - 1];
            BatchOk(st, c.cursor + 1, c.batch + [FromWords(c.words + [word], c.op & OP_MASK)])
  {
    var c := st.consumer;
    var _ := SlotOk(st, c.cursor);
    var word := st.slots[Index(st.cap, c.cursor)].words[FIELDS - 1];
  }

  lemma DrainCopyInv(st: State, st': State)
    requires Inv(st) && Enabled(st, DrainCopy) && st' == Next(st, DrainCopy)
    ensures Inv(st')
  {
    if |st.consumer.words| == FIELDS - 1 {
      CopyLast(st);
      ConsumerMove(st, st'.consumer);
    } else {
      DrainCopyWord(st, st');
    }
  }

  lemma DrainCopyWord(st: State, st': State)
    requires Inv(st) && Enabled(st, DrainCopy) && st' == Next(st, DrainCopy) && |st.consumer.words| < FIELDS - 1
    ensures Inv(st')
  {
    CopyOne(st);
    ConsumerMove(st, st'.consumer);
  }

  /** The word about to be copied is the one its producer wrote. */
  lemma CopyOne(st: State)
    requires Inv(st) && st.consumer.Copying?
    ensures var c := st.consumer;
            SlotThere(st, c.cursor) && st.slots[Index(st.cap, c.cursor)].words == Words(st.claimed[c.cursor])
  {
    var _ := SlotOk(st, st.consumer.cursor);
  }

  /** Nothing the consumer has already walked past is still being written. */
  lemma BehindCursor(st: State, s: nat)
    requires Inv(st) && s < Cursor(st)
    ensures !InFlight(st, s)
  {
    assert HolderOk(st, s);
    if s in st.holder {
      assert ProducerOk(st, st.holder[s]);
    }
  }

  /** Moving the tail opens the next lap of exactly the slots just copied out. */
  lemma DrainStoreSlot(st: State, st': State, s: nat)
    requires Inv(st) && Enabled(st, DrainStore) && st' == Next(st, DrainStore)
    ensures SlotOk(st', s)
  {
    var _ := (HolderOk(st, s), SlotOk(st, s));
    if st.tail + st.cap <= s < st'.tail + st.cap {
      var was := s - st.cap;
      NextLap(st.cap, st.log2, was);
      BehindCursor(st, was);
      var _ := SlotOk(st, was);
    }
  }

  lemma DrainStoreInv(st: State, st': State)
    requires Inv(st) && Enabled(st, DrainStore)
    requires st' == Next(st, DrainStore)
    ensures Inv(st')
  {
    forall u: Tid
      ensures ProducerOk(st', u)
    {
      var _ := ProducerOk(st, u);
    }
    forall s: nat
      ensures HolderOk(st', s) && SlotOk(st', s)
    {
      var _ := HolderOk(st, s);
      DrainStoreSlot(st, st', s);
    }
  }

  lemma StepInv(st: State, step: Step)
    requires Inv(st) && Enabled(st, step)
    ensures Inv(Next(st, step))
  {
    match step
    case DrainStart(max) => ConsumerMove(st, Loading(max, st.tail));
    case DrainLoadHead => ConsumerMove(st, Walking(st.consumer.max, st.consumer.start, st.head, []));
    case DrainCheck => DrainCheckInv(st, Next(st, step));
    case DrainCopy => DrainCopyInv(st, Next(st, step));
    case DrainStore => DrainStoreInv(st, Next(st, step));
    case _ => ProducerStepInv(st, step, Next(st, step));
  }

  lemma ProducerStepInv(st: State, step: Step, st': State)
    requires Inv(st) && Enabled(st, step) && st' == Next(st, step)
    requires !step.DrainStart? && !step.DrainLoadHead? && !step.DrainCheck? && !step.DrainCopy? && !step.DrainStore?
    ensures Inv(st')
  {
    match step
    case Begin(t, ev) => QuietMove(st, t, AtHead(ev));
    case LoadHead(t) => QuietMove(st, t, AtTail(st.P(t).ev, st.head));
    case LoadTail(t) => LoadTailInv(st, t, st');
    case Cas(t, spurious) =>
      if !spurious && st.head == st.P(t).head {
        CasInv(st, t, st');
      } else {
        QuietMove(st, t, AtHead(st.P(t).ev));
      }
    case WriteField(t) => WriteFieldInv(st, t, st');
    case Commit(t) => CommitInv(st, t, st');
    case Count(t) => CountInv(st, t, st');
    case Drop(t) =>
      QuietMove(st, t, Idle);
      SameButDropped(st.With(t, Idle), st.dropped + 1);
  }

  lemma SameButDropped(st: State, d: nat)
    requires Inv(st)
    ensures Inv(st.(dropped := d))
  {
    var st' := st.(dropped := d);
    forall u: Tid
      ensures ProducerOk(st', u)
    {
      var _ := ProducerOk(st, u);
    }
    forall s: nat
      ensures HolderOk(st', s) && (InFlight(st', s) <==> InFlight(st, s)) && SlotOk(st', s)
    {
      var _ := (HolderOk(st, s), SlotOk(st, s));
    }
  }

  lemma {:induction false} RunInv(st: State, run: seq<Step>)
    requires Inv(st)
    ensures Exec(st, run).Some? ==> Inv(Exec(st, run).value)
    decreases |run|
  {
    if run != [] && Enabled(st, run[0]) {
      StepInv(st, run[0]);
      RunInv(Next(st, run[0]), run[1..]);
    }
  }

  lemma ReachableInv(log2: nat, st: State)
    requires log2 < 64 && Reachable(log2, st)
    ensures Inv(st)
  {
    var run :| Exec(Init(log2), run) == Some(st);
    InitInv(log2);
    RunInv(Init(log2), run);
  }

  // ---------------------------------------------------------------- what every run guarantees

  /** No loss, duplicate, reordering, torn or previous-lap event: whatever the schedule, what the drains
      have handed out is the claimed sequence from its start, each event once and in claim order. */
  lemma DeliveredIsClaimPrefix(log2: nat, st: State)
    requires log2 < 64 && Reachable(log2, st)
    ensures |st.delivered| <= |st.claimed|
    ensures forall i :: 0 <= i < |st.delivered| ==> st.delivered[i] == Clean(st.claimed[i])
  {
    ReachableInv(log2, st);
  }

  /** Bounds and ownership: the ring never overfills, two in-flight producers never share a slot, and a
      producer only ever writes a slot whose previous event the consumer has released. */
  lemma SlotsAreExclusive(log2: nat, st: State, t: Tid, u: Tid)
    requires log2 < 64 && Reachable(log2, st)
    requires st.P(t).Filling?
    ensures 0 <= st.head - st.tail <= st.cap
    ensures Cursor(st) <= st.P(t).seqNo && st.P(t).seqNo < st.tail + st.cap
    ensures st.P(u).Filling? && u != t ==> Index(st.cap, st.P(t).seqNo) != Index(st.cap, st.P(u).seqNo)
  {
    ReachableInv(log2, st);
    assert ProducerOk(st, t) && ProducerOk(st, u);
    if st.P(u).Filling? && u != t {
      SameSlot(st.cap, st.log2, st.P(t).seqNo, st.P(u).seqNo);
    }
  }

  /** One parity bit suffices: the `op` byte at the consumer's cursor is this lap's commit, the previous
      lap's commit, or the zero of a fresh region, and the flag test passes in the first case alone. */
  lemma ParitySuffices(log2: nat, st: State)
    requires log2 < 64 && Reachable(log2, st) && st.consumer.Walking? && st.consumer.cursor < st.head
    ensures Index(st.cap, Cursor(st)) < |st.slots| && Cursor(st) < |st.claimed|
    ensures var c := Cursor(st);
            var op := st.slots[Index(st.cap, c)].op;
            && (InFlight(st, c) ==> op == StaleOp(st, c))
            && (!InFlight(st, c) ==> op == Published(st.claimed[c].op, OddLap(st.log2, c)))
            && (Accepts(op, OddLap(st.log2, c)) <==> !InFlight(st, c))
  {
    ReachableInv(log2, st);
    assert SlotOk(st, Cursor(st)) && HolderOk(st, Cursor(st));
    CheckExact(st, Cursor(st));
  }

  /** A drain stops at its limit, at its snapshot of head, or at a slot still in flight, and nowhere else. */
  lemma DrainStopsExactly(log2: nat, st: State)
    requires log2 < 64 && Reachable(log2, st) && st.consumer.Walking?
    ensures Enabled(st, DrainCheck)
    ensures Next(st, DrainCheck).consumer.Storing? <==>
              |st.consumer.batch| >= st.consumer.max || st.consumer.cursor == st.consumer.head || InFlight(st, st.consumer.cursor)
  {
    ReachableInv(log2, st);
    IndexInRange(st.cap, st.log2, st.consumer.cursor);
    if st.consumer.cursor < st.head {
      CheckExact(st, st.consumer.cursor);
    }
  }

  /** Every claim is accounted for: counted in `total_events`, or held by exactly one producer. */
  lemma ClaimsAreAccounted(log2: nat, st: State)
    requires log2 < 64 && Reachable(log2, st)
    ensures |st.claimed| == st.head == st.total + |st.holder|
    ensures forall s :: s in st.holder ==>
              && s < st.head
              && (st.P(st.holder[s]).Filling? || st.P(st.holder[s]).Counting?)
              && st.P(st.holder[s]).seqNo == s
    ensures forall t :: st.P(t).Filling? || st.P(t).Counting? ==>
              st.P(t).seqNo in st.holder && st.holder[st.P(t).seqNo] == t
  {
    ReachableInv(log2, st);
    forall s | s in st.holder
      ensures s < st.head && (st.P(st.holder[s]).Filling? || st.P(st.holder[s]).Counting?) && st.P(st.holder[s]).seqNo == s
    {
      assert HolderOk(st, s);
    }
    forall t: Tid | st.P(t).Filling? || st.P(t).Counting?
      ensures st.P(t).seqNo in st.holder && st.holder[st.P(t).seqNo] == t
    {
      assert ProducerOk(st, t);
    }
  }

  /** The step a producer takes next; no other thread can make it wait. */
  function NextOf(t: Tid, p: Producer): Step
    requires !p.Idle?
  {
    match p
    case AtHead(_) => LoadHead(t)
    case AtTail(_, _) => LoadTail(t)
    case AtCas(_, _) => Cas(t, false)
    case Filling(_, _, k) => if k < FIELDS then WriteField(t) else Commit(t)
    case Counting(_) => Count(t)
    case Dropping => Drop(t)
  }

  lemma NeverBlocked(log2: nat, st: State, t: Tid)
    requires log2 < 64 && Reachable(log2, st) && !st.P(t).Idle?
    ensures Enabled(st, NextOf(t, st.P(t)))
  {
    ReachableInv(log2, st);
    assert ProducerOk(st, t);
    if st.P(t).Filling? {
      IndexInRange(st.cap, st.log2, st.P(t).seqNo);
    }
  }

  /** Lock-freedom: a claim fails, other than spuriously, if and only if another producer has claimed the very
      sequence number this one was after. */
  lemma RetryMeansProgress(log2: nat, st: State, t: Tid)
    requires log2 < 64 && Reachable(log2, st) && st.P(t).AtCas?
    ensures st.P(t).head <= |st.claimed|
    ensures Next(st, Cas(t, false)).P(t).AtHead? <==> st.P(t).head < |st.claimed|
    ensures Next(st, Cas(t, false)).P(t).Filling? <==> st.P(t).head == |st.claimed|
  {
    ReachableInv(log2, st);
    assert ProducerOk(st, t);
  }

  /** Exactly when a push is dropped: the ring is full at the moment the tail is loaded, or the head it
      loaded earlier has since been overtaken by the tail, so that the 64-bit difference wraps. */
  lemma DropExactly(log2: nat, st: State, t: Tid)
    requires log2 < 64 && Reachable(log2, st) && st.P(t).AtTail?
    ensures var h := st.P(t).head;
            Next(st, LoadTail(t)).P(t).Dropping? <==>
              (st.head - st.tail == st.cap && h == st.head) || (h < st.tail && WrapSub(h, st.tail) >= st.cap)
    ensures var h := st.P(t).head;
            h < st.tail <= h + (WORD - st.cap) ==> Next(st, LoadTail(t)).P(t).Dropping?
  {
    ReachableInv(log2, st);
    assert ProducerOk(st, t);
    RoomTest(st.P(t).head, st.tail, st.cap);
  }

  lemma Extend(log2: nat, st: State, step: Step) returns (st': State)
    requires Reachable(log2, st) && Enabled(st, step)
    ensures st' == Next(st, step) && Reachable(log2, st')
  {
    st' := Next(st, step);
    var run :| Exec(Init(log2), run) == Some(st);
    ExecSplit(Init(log2), run, [step]);
    assert Exec(Init(log2), run + [step]) == Some(st');
  }

  lemma {:induction false} ExecSplit(st: State, a: seq<Step>, b: seq<Step>)
    ensures Exec(st, a + b) == if Exec(st, a).None? then None else Exec(Exec(st, a).value, b)
    decreases |a|
  {
    if a == [] {
      assert a + b == b;
    } else if Enabled(st, a[0]) {
      assert (a + b)[1..] == a[1..] + b;
      ExecSplit(Next(st, a[0]), a[1..], b);
    }
  }

  /** A one-slot ring whose thread 1 has loaded head 0 and nothing else yet. */
  ghost predicate Overtakes(st: State, e: Event, head: nat) {
    && Reachable(0, st)
    && st.cap == 1 && st.log2 == 0 && |st.slots| == 1 && |st.slots[0].words| == FIELDS
    && st.head == head && st.tail == 0 && st.P(1) == AtTail(e, 0)
  }

  lemma BothLoaded(e: Event) returns (st: State)
    ensures Overtakes(st, e, 0) && st.consumer == Resting && st.P(2) == AtTail(e, 0)
  {
    st := Init(0);
    assert Exec(st, []) == Some(st);
    st := Extend(0, st, Begin(1, e));
    st := Extend(0, st, LoadHead(1));
    st := Extend(0, st, Begin(2, e));
    st := Extend(0, st, LoadHead(2));
  }

  lemma ClaimUnder(e: Event) returns (st: State)
    ensures Overtakes(st, e, 1) && st.consumer == Resting && st.P(2) == Filling(e, 0, 0)
  {
    st := BothLoaded(e);
    RoomTest(0, 0, 1);
    st := Extend(0, st, LoadTail(2));
    st := Extend(0, st, Cas(2, false));
  }

  lemma PublishUnder(e: Event) returns (st: State)
    ensures Overtakes(st, e, 1) && st.consumer == Resting && Accepts(st.slots[0].op, OddLap(0, 0))
  {
    st := ClaimUnder(e);
    assert Index(1, 0) == 0;
    for k := 0 to FIELDS
      invariant Overtakes(st, e, 1) && st.consumer == Resting && st.P(2) == Filling(e, 0, k)
    {
      st := Extend(0, st, WriteField(2));
    }
    st := Extend(0, st, Commit(2));
    PublishedAccepted(e.op, OddLap(0, 0), OddLap(0, 0));
  }

  lemma CheckUnder(e: Event) returns (st: State)
    ensures Overtakes(st, e, 1) && st.consumer.Copying?
    ensures st.consumer.cursor == 0 && st.consumer.max == 1 && st.consumer.batch == [] && st.consumer.words == []
  {
    st := PublishUnder(e);
    assert Index(1, 0) == 0;
    st := Extend(0, st, DrainStart(1));
    st := Extend(0, st, DrainLoadHead);
    st := Extend(0, st, DrainCheck);
  }

  lemma CopyUnder(e: Event) returns (st: State)
    ensures Overtakes(st, e, 1) && st.consumer.Walking?
    ensures st.consumer.cursor == 1 && st.consumer.max == 1 && |st.consumer.batch| == 1
  {
    st := CheckUnder(e);
    assert Index(1, 0) == 0;
    for k := 0 to FIELDS - 1
      invariant Overtakes(st, e, 1)
      invariant st.consumer.Copying? && st.consumer.cursor == 0 && st.consumer.max == 1 && st.consumer.batch == []
      invariant |st.consumer.words| == k
    {
      st := Extend(0, st, DrainCopy);
    }
    st := Extend(0, st, DrainCopy);
  }

  /** "A drop means the ring was full" is false of the code.  On a one-slot ring thread 2 pushes one event
      and the consumer drains it between thread 1's two loads; thread 1 then drops into an empty ring. */
  lemma DropWithoutFull() returns (st: State)
    ensures Reachable(0, st)
    ensures st.head == st.tail && Enabled(st, LoadTail(1)) && Next(st, LoadTail(1)).P(1).Dropping?
  {
    st := CopyUnder(Event(0, 0, 0, 0, 0, 0, 0, 0));
    IndexInRange(1, 0, 1);
    st := Extend(0, st, DrainCheck);
    st := Extend(0, st, DrainStore);
    RoomTest(0, 1, 1);
  }
}
