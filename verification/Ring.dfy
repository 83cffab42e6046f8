/** The multi-producer / single-consumer event ring of `heapviz_ring.h` as a step system.

    One `Step` is one atomic action of one thread, or one plain field access: the interleavings of
    the real program under sequential consistency are exactly the finite sequences of enabled steps.
    Any number of producers take part.  `claimed` and `delivered` record what the
    producers put in, in claim order, and what the drains handed out; `holder` records who is between
    its claim and its `total_events` bump.  No step reads any of the three. */
module Ring {
  import opened Basics
  import opened Bits

  type Tid = nat

  const OP_MASK: bv8 := 0x3F
  const PARITY_BIT: bv8 := 0x40
  const COMMIT_BIT: bv8 := 0x80
  const OP_FREE: bv8 := 1

  const WORD: nat := 0x1_0000_0000_0000_0000
  const FIELDS: nat := 7

  datatype Event = Event(timestamp: nat, ptr: nat, size: nat, usable: nat, tid0: nat, tid1: nat, tid2: nat, op: bv8)

  /** One 32-byte slot: the seven fields the producer stores before the `op` byte, then that byte. */
  datatype Slot = Slot(words: seq<nat>, op: bv8)

  // ---------------------------------------------------------------- encoding

  /** `hv_event_set_tid` and `hv_event_get_tid`: the low 24 bits of a thread id, little-endian. */
  function WithTid(e: Event, tid: nat): Event {
    e.(tid0 := tid % 256, tid1 := tid / 256 % 256, tid2 := tid / 65536 % 256)
  }

  function TidOf(e: Event): nat {
    e.tid0 + 256 * e.tid1 + 65536 * e.tid2
  }

  /** The stores of hv_ring_push in program order. */
  function Words(e: Event): (w: seq<nat>)
    ensures |w| == FIELDS
  {
    [e.timestamp, e.ptr, e.size, e.usable, e.tid0, e.tid1, e.tid2]
  }

  function FromWords(w: seq<nat>, op: bv8): Event
    requires |w| == FIELDS
  {
    Event(w[0], w[1], w[2], w[3], w[4], w[5], w[6], op)
  }

  /** What the consumer is promised for an event: every field, and the opcode without the flag bits. */
  function Clean(e: Event): Event {
    e.(op := e.op & OP_MASK)
  }

  function Published(op: bv8, odd: bool): bv8 {
    (op & OP_MASK) | COMMIT_BIT | (if odd then PARITY_BIT else 0)
  }

  predicate Accepts(op: bv8, odd: bool) {
    op & COMMIT_BIT != 0 && op & PARITY_BIT == (if odd then PARITY_BIT else 0)
  }

  lemma TidRoundTrip(e: Event, tid: nat)
    ensures TidOf(WithTid(e, tid)) == tid % 0x100_0000
  {
    DivTwiceBy(tid, 256, 256);
    DivTwiceBy(tid, 65536, 256);
  }

  lemma DivTwiceBy(x: nat, a: nat, b: nat)
    requires a > 0 && b > 0
    ensures x % (a * b) == x % a + a * (x / a % b)
  {
    var q, r := x / a / b, x / a % b;
    assert x / a == q * b + r;
    assert x == (q * b + r) * a + x % a;
    assert (q * b + r) * a == q * (a * b) + a * r;
    assert a * r + x % a < a * b by {
      MulGap(r, b, a);
      assert r * a == a * r && b * a == a * b;
    }
    DivModUnique(x, a * b, q, a * r + x % a);
  }

  /** One parity bit separates a lap from the one before it, and a zeroed slot from both. */
  lemma PublishedAccepted(op: bv8, odd: bool, want: bool)
    ensures Accepts(Published(op, odd), want) <==> odd == want
    ensures !Accepts(0, want)
    ensures Published(op, odd) & OP_MASK == op & OP_MASK
  {
  }

  // ---------------------------------------------------------------- state

  datatype Producer =
    | Idle
    | AtHead(ev: Event)                       // about to load head
    | AtTail(ev: Event, head: nat)            // about to load tail and test for room
    | AtCas(ev: Event, head: nat)             // about to claim
    | Filling(ev: Event, seqNo: nat, k: nat)  // k fields stored, op not yet
    | Counting(seqNo: nat)                    // published; about to bump total_events
    | Dropping                                // ring looked full; about to bump dropped

  datatype Consumer =
    | Resting
    | Loading(max: nat, start: nat)
    | Walking(max: nat, cursor: nat, head: nat, batch: seq<Event>)
    | Copying(max: nat, cursor: nat, head: nat, batch: seq<Event>, op: bv8, words: seq<nat>)
    | Storing(cursor: nat, batch: seq<Event>)

  datatype State = State(
    cap: nat,
    log2: nat,
    head: nat,
    tail: nat,
    dropped: nat,
    total: nat,
    slots: seq<Slot>,
    producers: map<Tid, Producer>,
    consumer: Consumer,
    claimed: seq<Event>,
    delivered: seq<Event>,
    holder: map<nat, Tid>)
  {
    function P(t: Tid): Producer {
      if t in producers then producers[t] else Idle
    }

    function With(t: Tid, p: Producer): State {
      this.(producers := producers[t := p])
    }
  }

  /** `hv_ring_slot`'s mask. */
  function Index(cap: nat, s: nat): nat {
    if cap == 0 then 0 else And(s, cap - 1)
  }

  /** The lap parity of a sequence number, `(seq >> capacity_log2) & 1`. */
  predicate OddLap(log2: nat, s: nat) {
    Shr(s, log2) % 2 == 1
  }

  /** Laps are counted from zero: the parity bit is set in every second one, the first not among them. */
  lemma LapParity(log2: nat, s: nat, lap: nat, at: nat)
    requires s == lap * Pow2(log2) + at && at < Pow2(log2)
    ensures OddLap(log2, s) <==> lap % 2 == 1
  {
    ShiftIsDiv(s, log2);
    DivModUnique(s, Pow2(log2), lap, at);
  }

  function Init(log2: nat): State {
    State(Pow2(log2), log2, 0, 0, 0, 0, seq(Pow2(log2), i => Slot([0, 0, 0, 0, 0, 0, 0], 0)), map[], Resting, [], [], map[])
  }

  // ---------------------------------------------------------------- steps

  datatype Step =
    | Begin(t: Tid, ev: Event)
    | LoadHead(t: Tid)
    | LoadTail(t: Tid)
    | Cas(t: Tid, spurious: bool)
    | WriteField(t: Tid)
    | Commit(t: Tid)
    | Count(t: Tid)
    | Drop(t: Tid)
    | DrainStart(max: nat)
    | DrainLoadHead
    | DrainCheck
    | DrainCopy
    | DrainStore

  /** `head - tail` on 64-bit unsigned counters: wraps when the loaded head is behind the tail. */
  function WrapSub(h: nat, t: nat): nat {
    (h - t) % WORD
  }

  predicate Enabled(st: State, step: Step) {
    match step
    case Begin(t, _) => st.P(t).Idle?
    case LoadHead(t) => st.P(t).AtHead?
    case LoadTail(t) => st.P(t).AtTail?
    case Cas(t, _) => st.P(t).AtCas?
    case WriteField(t) => st.P(t).Filling? && st.P(t).k < FIELDS && SlotThere(st, st.P(t).seqNo)
    case Commit(t) => st.P(t).Filling? && st.P(t).k == FIELDS && SlotThere(st, st.P(t).seqNo)
    case Count(t) => st.P(t).Counting?
    case Drop(t) => st.P(t).Dropping?
    case DrainStart(_) => st.consumer.Resting?
    case DrainLoadHead => st.consumer.Loading?
    case DrainCheck => st.consumer.Walking? && SlotThere(st, st.consumer.cursor)
    case DrainCopy => st.consumer.Copying? && |st.consumer.words| < FIELDS && SlotThere(st, st.consumer.cursor)
    case DrainStore => st.consumer.Storing?
  }

  /** The slot array has the slot and it has all its fields; true of every reachable state. */
  predicate SlotThere(st: State, s: nat) {
    Index(st.cap, s) < |st.slots| && |st.slots[Index(st.cap, s)].words| == FIELDS
  }

  function Next(st: State, step: Step): State
    requires Enabled(st, step)
  {
    match step
    case Begin(t, ev) => st.With(t, AtHead(ev))
    case LoadHead(t) => st.With(t, AtTail(st.P(t).ev, st.head))
    case LoadTail(t) =>
      var p := st.P(t);
      if WrapSub(p.head, st.tail) >= st.cap then st.With(t, Dropping) else st.With(t, AtCas(p.ev, p.head))
    case Cas(t, spurious) =>
      var p := st.P(t);
      if !spurious && st.head == p.head then
        st.With(t, Filling(p.ev, st.head, 0)).(
          head := st.head + 1, claimed := st.claimed + [p.ev], holder := st.holder[st.head := t])
      else st.With(t, AtHead(p.ev))
    case WriteField(t) =>
      var p := st.P(t);
      var i := Index(st.cap, p.seqNo);
      var slot := st.slots[i];
      st.With(t, Filling(p.ev, p.seqNo, p.k + 1)).(
        slots := st.slots[i := slot.(words := slot.words[p.k := Words(p.ev)[p.k]])])
    case Commit(t) =>
      var p := st.P(t);
      var i := Index(st.cap, p.seqNo);
      st.With(t, Counting(p.seqNo)).(
        slots := st.slots[i := st.slots[i].(op := Published(p.ev.op, OddLap(st.log2, p.seqNo)))])
    case Count(t) => st.With(t, Idle).(total := st.total + 1, holder := st.holder - {st.P(t).seqNo})
    case Drop(t) => st.With(t, Idle).(dropped := st.dropped + 1)
    case DrainStart(max) => st.(consumer := Loading(max, st.tail))
    case DrainLoadHead => st.(consumer := Walking(st.consumer.max, st.consumer.start, st.head, []))
    case DrainCheck =>
      var c := st.consumer;
      var op := st.slots[Index(st.cap, c.cursor)].op;
      if |c.batch| < c.max && c.cursor != c.head && Accepts(op, OddLap(st.log2, c.cursor)) then
        st.(consumer := Copying(c.max, c.cursor, c.head, c.batch, op, []))
      else st.(consumer := Storing(c.cursor, c.batch))
    case DrainCopy =>
      var c := st.consumer;
      var words := c.words + [st.slots[Index(st.cap, c.cursor)].words[|c.words|]];
      if |words| == FIELDS then
        st.(consumer := Walking(c.max, c.cursor + 1, c.head, c.batch + [FromWords(words, c.op & OP_MASK)]))
      else st.(consumer := c.(words := words))
    case DrainStore =>
      var c := st.consumer;
      st.(consumer := Resting, delivered := st.delivered + c.batch, tail := if c.batch != [] then c.cursor else st.tail)
  }

  /** Runs a schedule; `None` when some step of it was not enabled. */
  function Exec(st: State, run: seq<Step>): Option<State>
    decreases |run|
  {
    if run == [] then Some(st)
    else if Enabled(st, run[0]) then Exec(Next(st, run[0]), run[1..])
    else None
  }

  ghost predicate Reachable(log2: nat, st: State) {
    exists run :: Exec(Init(log2), run) == Some(st)
  }

  // ---------------------------------------------------------------- slot arithmetic

  lemma IndexInRange(cap: nat, log2: nat, s: nat)
    requires cap == Pow2(log2)
    ensures Index(cap, s) < cap
  {
    MaskIsMod(s, log2);
  }

  /** Two sequence numbers less than a lap apart share a slot only if they are equal. */
  lemma SameSlot(cap: nat, log2: nat, s: nat, s': nat)
    requires cap == Pow2(log2) && s < s' + cap && s' < s + cap
    ensures Index(cap, s) == Index(cap, s') <==> s == s'
  {
    MaskIsMod(s, log2);
    MaskIsMod(s', log2);
    if s % cap == s' % cap && s != s' {
      CloseResidues(s, s', cap);
    }
  }

  lemma CloseResidues(s: nat, s': nat, c: nat)
    requires c > 0 && s < s' + c && s' < s + c && s % c == s' % c
    ensures s == s'
  {
    var q, q' := s / c, s' / c;
    assert s == q * c + s % c && s' == q' * c + s' % c;
    if q < q' {
      MulGap(q, q', c);
    } else if q' < q {
      MulGap(q', q, c);
    }
  }

  /** A full lap later: the same slot, the other parity. */
  lemma NextLap(cap: nat, log2: nat, s: nat)
    requires cap == Pow2(log2)
    ensures Index(cap, s + cap) == Index(cap, s)
    ensures OddLap(log2, s + cap) != OddLap(log2, s)
  {
    assert Index(cap, s + cap) == Index(cap, s) by {
      MaskIsMod(s, log2);
      MaskIsMod(s + cap, log2);
      AddOneLap(s, cap);
    }
    assert Shr(s + cap, log2) == Shr(s, log2) + 1 by {
      ShiftIsDiv(s, log2);
      ShiftIsDiv(s + cap, log2);
      AddOneLap(s, cap);
    }
  }

  lemma AddOneLap(s: nat, c: nat)
    requires c > 0
    ensures (s + c) / c == s / c + 1 && (s + c) % c == s % c
  {
    var q := s / c;
    assert s == q * c + s % c;
    assert (q + 1) * c == q * c + c;
    DivModUnique(s + c, c, q + 1, s % c);
  }
}
