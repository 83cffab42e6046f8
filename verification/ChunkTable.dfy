/** The live chunk table of `chunk_table.cpp`: an open-addressing table that refines a plain map, with a
    bounded-memory policy that evicts freed records through a queue of hints. */
module Chunks {
  import opened Basics
  import opened RobinHood
  import opened Sorting
  import opened Bits

  const MIN_CAPACITY: nat := 16
  const LOAD_NUMERATOR: nat := 85
  const LOAD_DENOMINATOR: nat := 100

  /** `ideal_slot`: the top bits of a 64-bit multiplication by 2^64 / phi. */
  function Fibonacci(key: Key, capacity: nat): nat {
    if capacity == 0 then 0
    else key * 0x9E37_79B9_7F4A_7C15 % 0x1_0000_0000_0000_0000 * capacity / 0x1_0000_0000_0000_0000
  }

  /** `std::bit_ceil` with the floor of `round_capacity`. */
  function RoundCapacity(n: nat): (c: nat)
    ensures c >= n && c >= MIN_CAPACITY
  {
    CeilFrom(MIN_CAPACITY, n)
  }

  ghost predicate IsCapacity(n: nat) {
    exists k: nat :: n == Pow2(k)
  }

  /** The capacity is always a power of two, so the source's masks are reductions modulo the capacity. */
  lemma {:induction false} RoundedLog2(n: nat) returns (k: nat)
    ensures RoundCapacity(n) == Pow2(k) && k >= 4
    ensures RoundCapacity(n) == 16 || RoundCapacity(n) < 2 * n
  {
    k := CeilLog2(4, n);
    CeilIsLeast(16, n);
  }

  /** Subtraction of 64-bit unsigned values. */
  function Sub64(a: nat, b: nat): int {
    if b <= a then a - b else a - b + 0x1_0000_0000_0000_0000
  }

  /** The masked arithmetic of `find`, `place` and `erase`: the next slot, and the distance from home. */
  lemma MaskedProbe(k: nat, i: nat, home: nat)
    requires k <= 64 && i < Pow2(k) && home < Pow2(k) <= 0x1_0000_0000_0000_0000
    ensures And(i + 1, Pow2(k) - 1) == Succ(Pow2(k), i)
    ensures And(Sub64(i, home), Pow2(k) - 1) == Dist(Pow2(k), home, i)
  {
    var n, q := Pow2(k), Pow2(64 - k);
    assert q * n == 0x1_0000_0000_0000_0000 by {
      Pow2Of64();
      Pow2Split(64 - k, k);
    }
    ProbeModulo(n, q, i, home);
    assert And(i + 1, n - 1) == (i + 1) % n by { MaskIsMod(i + 1, k); }
    assert And(Sub64(i, home), n - 1) == Sub64(i, home) % n by { MaskIsMod(Sub64(i, home), k); }
  }

  lemma ProbeModulo(n: nat, q: nat, i: nat, home: nat)
    requires q > 0 && i < n && home < n
    ensures (i + 1) % n == Succ(n, i)
    ensures home <= i ==> (i - home) % n == Dist(n, home, i)
    ensures i < home ==> i - home + q * n >= 0 && (i - home + q * n) % n == Dist(n, home, i)
  {
    DivModUnique(i + 1, n, if i + 1 == n then 1 else 0, Succ(n, i));
    var d := Dist(n, home, i);
    if home <= i {
      DivModUnique(d, n, 0, d);
    } else {
      assert q * n == (q - 1) * n + n;
      DivModUnique(i - home + q * n, n, q - 1, d);
    }
  }

  predicate IsFreed(m: map<Key, Chunk>, k: Key) {
    k in m && m[k].state.Freed?
  }

  /** `m'` is `m` without some of its freed records. */
  ghost predicate OnlyFreedLost(m: map<Key, Chunk>, m': map<Key, Chunk>) {
    && (forall k :: k in m' ==> k in m && m'[k] == m[k])
    && (forall k :: k in m && k !in m' ==> m[k].state.Freed?)
  }

  /** What `insert_live` leaves under a key it already knew: everything but the refinement marks. */
  function Recycled(c: Chunk, size: nat, usable: nat, allocMs: nat, tid: nat): Chunk {
    c.(size := size, usable := usable, allocMs := allocMs, freeMs := 0, tid := tid, state := Live)
  }

  function NewLive(key: Key, size: nat, usable: nat, allocMs: nat, tid: nat): Chunk {
    Chunk(key, size, usable, allocMs, 0, tid, Live, 0, 0)
  }

  function LiveKeys(m: map<Key, Chunk>): set<Key> {
    set k | k in m && m[k].state.Live?
  }

  lemma LostOne(m: map<Key, Chunk>, before: map<Key, Chunk>, after: map<Key, Chunk>)
    requires OnlyFreedLost(m, before) && exists k: Key :: IsFreed(before, k) && after == before - {k}
    ensures OnlyFreedLost(m, after)
  {
  }

  /** Where giving up freed records can end: within the cap, or with live records only. */
  lemma CapOutcome(m: map<Key, Chunk>, m': map<Key, Chunk>, n: nat)
    requires OnlyFreedLost(m, m') && (|m'| <= n || forall k: Key :: !IsFreed(m', k))
    requires forall k :: k in m' ==> Occ(m'[k])
    ensures |LiveKeys(m)| <= |m'|
    ensures |m'| <= n <==> |LiveKeys(m)| <= n
    ensures |m'| > n ==> |m'| == |LiveKeys(m)|
  {
    assert LiveKeys(m') == LiveKeys(m);
    SubsetSize(LiveKeys(m), m'.Keys);
    if |m'| > n {
      forall k | k in m'
        ensures k in LiveKeys(m')
      {
        var _ := IsFreed(m', k);
      }
      assert LiveKeys(m') == m'.Keys;
    }
  }

  class ChunkTable {
    const hash: Hash
    var slots: seq<Chunk>
    var size: nat
    var maxEntries: nat
    var fifo: seq<Key>
    var fifoHead: nat
    var fifoTail: nat
    var drops: nat
    var evictions: nat
    ghost var model: map<Key, Chunk>

    ghost predicate QueueOk()
      reads this`fifo, this`fifoHead, this`fifoTail, this`maxEntries
    {
      && (maxEntries == 0 ==> fifo == [] && fifoHead == fifoTail == 0)
      && (maxEntries > 0 ==> |fifo| == maxEntries + 1 && fifoHead < |fifo| && fifoTail < |fifo|)
    }

    ghost predicate Valid()
      reads this`slots, this`model, this`size, this`maxEntries, this`fifo, this`fifoHead, this`fifoTail
    {
      TableOk() && QueueOk()
    }

    /** The slots are a Robin Hood table of the map, below its load limit. */
    ghost predicate TableOk()
      reads this`slots, this`model, this`size
    {
      && Table(hash, slots, model)
      && |slots| >= MIN_CAPACITY
      && IsCapacity(|slots|)
      && size == |model|
      && size * LOAD_DENOMINATOR <= |slots| * LOAD_NUMERATOR
      && 0 !in model
      && (forall k :: k in model ==> model[k].key == k && Occ(model[k]))
    }

    /** The hints waiting in the freed queue, oldest first. */
    ghost function Queue(): seq<Key>
      requires QueueOk()
      reads this`fifo, this`fifoHead, this`fifoTail, this`maxEntries
    {
      Waiting(fifo, fifoHead, fifoTail)
    }

    constructor (hash: Hash, initialCapacity: nat)
      requires GoodHash(hash)
      ensures Valid() && model == map[] && maxEntries == 0 && this.hash == hash && drops == 0 && |slots| == RoundCapacity(initialCapacity)
    {
      this.hash := hash;
      slots := seq(RoundCapacity(initialCapacity), i => EMPTY_SLOT);
      size, maxEntries, fifo, fifoHead, fifoTail, drops, evictions := 0, 0, [], 0, 0, 0, 0;
      model := map[];
      ghost var k := RoundedLog2(initialCapacity);
    }

    /** Returns the slot of `key`, exactly when the map has it. */
    method Find(key: Key) returns (found: bool, at: nat)
      requires TableOk()
      ensures found <==> key in model
      ensures found ==> At(slots, at, key) && slots[at] == model[key]
    {
      if key == 0 {
        return false, 0;
      }
      var n := |slots|;
      ghost var e := HasEmpty(slots, model);
      var slot, dist := hash(key, n), 0;
      while true
        invariant n == |slots| && dist < n && slot == Pos(n, hash(key, n), dist)
        invariant forall p: nat :: At(slots, p, key) ==> dist <= D(hash, slots, p)
        decreases n - dist
      {
        if key in model {
          var p: nat :| At(slots, p, key);
          OnTheWay(hash, slots, p, dist);
        }
        if !Occ(slots[slot]) {
          return false, 0;
        }
        if slots[slot].key == key {
          return true, slot;
        }
        if dist > D(hash, slots, slot) {
          return false, 0;
        }
        ShortOfEmpty(hash, slots, e, slot);
        slot := Succ(n, slot);
        dist := dist + 1;
      }
    }

    method Place(rec: Chunk)
      requires Table(hash, slots, model) && |model| < |slots|
      requires Occ(rec) && rec.key !in model
      modifies this`slots, this`model
      ensures Table(hash, slots, model) && |slots| == old(|slots|)
      ensures model == old(model)[rec.key := rec]
    {
      slots := PlaceInto(hash, slots, model, rec);
      model := model[rec.key := rec];
    }

    /** Removes a record, closing the gap by backward shift. */
    method Erase(key: Key) returns (ok: bool)
      requires Valid()
      modifies this`slots, this`size, this`model
      ensures Valid()
      ensures ok <==> key in old(model)
      ensures model == old(model) - {key}
      ensures |slots| == old(|slots|) && size == old(size) - (if ok then 1 else 0)
    {
      var found, i := Find(key);
      if !found {
        assert model == model - {key};
        return false;
      }
      RemoveAt(i);
      return true;
    }

    /** Removes the record in one slot. */
    method RemoveAt(at: nat)
      requires TableOk() && at < |slots| && Occ(slots[at])
      modifies this`slots, this`size, this`model
      ensures TableOk() && |slots| == old(|slots|)
      ensures model == old(model) - {old(slots)[at].key} && size == old(size) - 1
    {
      var key := slots[at].key;
      assert At(slots, at, key);
      WithoutKey(model, key);
      slots := ShiftOut(hash, slots, model, at);
      model, size := model - {key}, size - 1;
    }

    method Clear()
      requires Valid()
      modifies this`slots, this`size, this`fifoHead, this`fifoTail, this`model
      ensures Valid() && model == map[] && Queue() == []
    {
      slots := seq(|slots|, i => EMPTY_SLOT);
      size, fifoHead, fifoTail := 0, 0, 0;
      model := map[];
    }

    /** Reinserts every record under the new capacity's hash; the map is untouched. */
    method GrowTo(newCapacity: nat)
      requires Valid()
      modifies this`slots
      ensures Valid() && |slots| >= newCapacity && |slots| == Max(old(|slots|), RoundCapacity(newCapacity))
    {
      var cap := RoundCapacity(newCapacity);
      if cap <= |slots| {
        return;
      }
      slots := Rehash(hash, slots, model, cap);
      ghost var k := RoundedLog2(newCapacity);
    }

    /** Afterwards `entries` records fit without rehashing. */
    method Reserve(entries: nat)
      requires Valid()
      modifies this`slots
      ensures Valid() && entries * LOAD_DENOMINATOR <= |slots| * LOAD_NUMERATOR
    {
      var needed := entries * LOAD_DENOMINATOR / LOAD_NUMERATOR + 1;
      if needed > |slots| {
        GrowTo(RoundCapacity(needed));
      }
    }

    /** Overwrites the record under a key the table holds, leaving the probe layout alone. */
    method Overwrite(at: nat, c: Chunk)
      requires Valid() && at < |slots| && Occ(slots[at]) && Occ(c) && c.key == slots[at].key
      modifies this`slots, this`model
      ensures Valid() && model == old(model)[c.key := c] && size == old(size)
    {
      SameKey(hash, slots, model, at, c);
      slots := slots[at := c];
      assert model[c.key := c].Keys == model.Keys;
      model := model[c.key := c];
    }

    // -------------------------------------------------------------- the freed queue

    /** Appends a hint; when the ring is full the oldest one is lost. */
    method PushFreed(key: Key)
      requires QueueOk()
      modifies this`fifo, this`fifoHead, this`fifoTail
      ensures QueueOk()
      ensures maxEntries == 0 ==> Queue() == []
      ensures maxEntries > 0 ==>
                var q := old(Queue());
                Queue() == (if |q| == maxEntries then q[1..] else q) + [key]
    {
      if fifo == [] {
        return;
      }
      WaitingPush(fifo, fifoHead, fifoTail, key);
      fifo := fifo[fifoTail := key];
      fifoTail := Succ(|fifo|, fifoTail);
      if fifoTail == fifoHead {
        fifoHead := Succ(|fifo|, fifoHead);
      }
    }

    method PopHint() returns (key: Key)
      requires QueueOk() && fifoHead != fifoTail
      modifies this`fifoHead
      ensures QueueOk() && old(Queue()) == [key] + Queue()
    {
      key := fifo[fifoHead];
      fifoHead := Succ(|fifo|, fifoHead);
    }

    /** A hint counts only while its record is still there and still freed. */
    method StillFreed(key: Key) returns (yes: bool)
      requires TableOk()
      ensures yes <==> IsFreed(model, key)
    {
      var found, at := Find(key);
      return found && slots[at].state.Freed?;
    }

    method Evict(key: Key)
      requires Valid() && key in model
      modifies this`slots, this`size, this`model, this`evictions
      ensures Valid() && |slots| == old(|slots|) && model == old(model) - {key}
      ensures evictions == old(evictions) + 1 && size == old(size) - 1
    {
      var _ := Erase(key);
      evictions := evictions + 1;
    }

    method TryHint(ghost q: seq<Key>, ghost i: nat) returns (key: Key, yes: bool)
      requires Valid() && fifoHead != fifoTail && i <= |q| && Queue() == q[i..]
      modifies this`fifoHead
      ensures Valid() && i < |q| && key == q[i] && Queue() == q[i + 1..] && (yes <==> IsFreed(model, key))
    {
      key := PopHint();
      HintTaken(q, i, key, Queue());
      yes := StillFreed(key);
    }

    /** Takes hints off the queue up to the first whose record is still freed. */
    method TakeHint() returns (ok: bool, key: Key)
      requires Valid()
      modifies this`fifoHead
      ensures Valid()
      ensures var q, f := old(Queue()), FirstFreed(old(Queue()), model);
              && (ok <==> f < |q|)
              && (ok ==> key == q[f] && IsFreed(model, key) && Queue() == q[f + 1..])
              && (!ok ==> Queue() == [])
    {
      ghost var q, i := Queue(), 0;
      key := 0;
      while fifoHead != fifoTail
        invariant Valid() && 0 <= i <= |q| && Queue() == q[i..]
        invariant forall j :: 0 <= j < i ==> !IsFreed(model, q[j])
        decreases |q| - i
      {
        var yes;
        key, yes := TryHint(q, i);
        if yes {
          FirstFreedAt(q, model, i);
          return true, key;
        }
        i := i + 1;
      }
      FirstFreedAt(q, model, i);
      return false, key;
    }

    /** Evicts the first hinted record that is still freed; hints of erased or recycled keys are skipped. */
    method PopEvictable() returns (ok: bool)
      requires Valid()
      modifies this`slots, this`size, this`model, this`fifoHead, this`evictions
      ensures Valid() && |slots| == old(|slots|)
      ensures var q, f := old(Queue()), FirstFreed(old(Queue()), old(model));
              && (ok <==> f < |q|)
              && (ok ==> model == old(model) - {q[f]} && Queue() == q[f + 1..] && evictions == old(evictions) + 1)
              && (!ok ==> model == old(model) && Queue() == [] && evictions == old(evictions))
      ensures OldestFirst(old(Queue()), old(model)) ==> OldestFirst(Queue(), model) && OldestGone(old(model), model)
      ensures size == old(size) - (if ok then 1 else 0)
    {
      PopsOldest(Queue(), model);
      var key;
      ok, key := TakeHint();
      if ok {
        Evict(key);
      }
    }

    /** Rebuilds the hints from the table, oldest free first. */
    method RefillFreedQueue()
      requires Valid()
      modifies this`fifo, this`fifoHead, this`fifoTail
      ensures Valid()
      ensures forall i :: 0 <= i < |Queue()| ==> IsFreed(model, Queue()[i])
      ensures maxEntries > 0 && (exists k: Key :: IsFreed(model, k)) ==> Queue() != [] && IsOldest(model, Queue()[0])
      ensures var oldest := Sorted(FreedPairs(slots));
              && |Queue()| == (if |oldest| < maxEntries then |oldest| else maxEntries)
              && forall i :: 0 <= i < |Queue()| ==> Queue()[i] == oldest[i].1
      ensures maxEntries > 0 ==> OldestFirst(Queue(), model)
      ensures 0 < maxEntries && size <= maxEntries ==> forall k: Key :: IsFreed(model, k) ==> k in Queue()
    {
      if fifo == [] {
        return;
      }
      var freed := FreedPairs(slots);
      var sorted := Sorted(freed);
      SortedFreed(slots, model);
      fifoHead, fifoTail := 0, 0;
      var room := |fifo| - 1;
      PushAll(sorted, Min(|sorted|, room));
      FreedInOrder(slots, model);
      HintsOf(sorted, Queue(), model);
    }

    method PushAll(sorted: seq<Pair>, n: nat)
      requires QueueOk() && Queue() == [] && n <= |sorted| && n <= maxEntries
      modifies this`fifo, this`fifoHead, this`fifoTail
      ensures QueueOk() && |Queue()| == n && forall i :: 0 <= i < n ==> Queue()[i] == sorted[i].1
    {
      for i := 0 to n
        invariant QueueOk() && |Queue()| == i
        invariant forall j :: 0 <= j < i ==> Queue()[j] == sorted[j].1
      {
        PushFreed(sorted[i].1);
      }
    }

    /** Gives up one freed record, and never a live one.  Succeeds exactly when there is a freed record to
        give up, whatever stale or overrun hints the queue holds; that of the first hint still good for one goes,
        and with no usable hint the oldest. */
    method MakeRoom() returns (ok: bool)
      requires Valid() && maxEntries > 0
      modifies this`slots, this`size, this`model, this`fifo, this`fifoHead, this`fifoTail, this`evictions
      ensures Valid() && |slots| == old(|slots|)
      ensures ok <==> exists k: Key :: IsFreed(old(model), k)
      ensures ok ==> exists k: Key :: IsFreed(old(model), k) && model == old(model) - {k}
      ensures var q, f := old(Queue()), FirstFreed(old(Queue()), old(model));
              f < |q| ==> ok && model == old(model) - {q[f]} && Queue() == q[f + 1..]
      ensures ok && FirstFreed(old(Queue()), old(model)) == |old(Queue())| ==>
                exists k: Key :: IsOldest(old(model), k) && model == old(model) - {k}
      ensures OldestFirst(old(Queue()), old(model)) ==> OldestFirst(Queue(), model) && OldestGone(old(model), model)
      ensures !ok ==> model == old(model)
      ensures size == old(size) - (if ok then 1 else 0) && evictions + size == old(evictions + size)
    {
      FirstFreedIsFirst(Queue(), model);
      ok := PopEvictable();
      if !ok {
        ok := PopOldest();
      }
    }

    /** The second try of `make_room`, on a refilled queue: the oldest freed record goes. */
    method PopOldest() returns (ok: bool)
      requires Valid() && maxEntries > 0
      modifies this`slots, this`size, this`model, this`fifo, this`fifoHead, this`fifoTail, this`evictions
      ensures Valid() && |slots| == old(|slots|)
      ensures ok <==> exists k: Key :: IsFreed(old(model), k)
      ensures ok ==> exists k: Key :: IsOldest(old(model), k) && model == old(model) - {k}
      ensures OldestFirst(Queue(), model) && OldestGone(old(model), model)
      ensures !ok ==> model == old(model)
      ensures size == old(size) - (if ok then 1 else 0) && evictions + size == old(evictions + size)
    {
      RefillFreedQueue();
      FirstFreedIsFirst(Queue(), model);
      ok := PopEvictable();
    }

    /** Sets the cap and enforces it at once.  Only freed records go, the earliest freed first, and no more
        than need be: the table is within its cap afterwards if and only if its live records are.  Afterwards
        the queue hints at freed records, the earliest first: at all of them when the table was within the
        cap already. */
    method SetMaxEntries(n: nat)
      requires Valid()
      modifies this
      ensures Valid() && maxEntries == n
      ensures OnlyFreedLost(old(model), model)
      ensures n == 0 ==> model == old(model)
      ensures n > 0 ==> (size <= n <==> |LiveKeys(old(model))| <= n)
      ensures n > 0 ==> size == Max(|LiveKeys(old(model))|, Min(old(size), n))
      ensures old(model) == map[] ==> Queue() == []
      ensures evictions + size == old(evictions + size)
      ensures n > 0 ==> OldestFirst(Queue(), model) && OldestGone(old(model), model)
      ensures 0 < n && old(size) <= n ==> model == old(model) && forall k: Key :: IsFreed(model, k) ==> k in Queue()
    {
      maxEntries := n;
      if n == 0 {
        fifo, fifoHead, fifoTail := [], 0, 0;
        return;
      }
      fifo := seq(n + 1, i => 0);
      fifoHead, fifoTail := 0, 0;
      RefillFreedQueue();
      EnforceCap();
    }

    method EnforceCap()
      requires Valid() && maxEntries > 0
      modifies this`slots, this`size, this`model, this`fifo, this`fifoHead, this`fifoTail, this`evictions
      ensures Valid()
      ensures OnlyFreedLost(old(model), model)
      ensures size <= maxEntries <==> |LiveKeys(old(model))| <= maxEntries
      ensures size == Max(|LiveKeys(old(model))|, Min(old(size), maxEntries)) && evictions + size == old(evictions + size)
      ensures old(size) <= maxEntries ==> Queue() == old(Queue()) && model == old(model)
      ensures OldestFirst(old(Queue()), old(model)) ==> OldestFirst(Queue(), model) && OldestGone(old(model), model)
    {
      var ok := true;
      while size > maxEntries && ok
        invariant Valid() && Min(old(size), maxEntries) <= size <= old(size) && evictions + size == old(evictions + size)
        invariant old(size) <= maxEntries ==> Queue() == old(Queue()) && model == old(model)
        invariant OnlyFreedLost(old(model), model)
        invariant OldestFirst(old(Queue()), old(model)) ==> OldestFirst(Queue(), model) && OldestGone(old(model), model)
        invariant !ok ==> forall k: Key :: !IsFreed(model, k)
        decreases size, ok
      {
        ok := GiveUpOne(old(model));
      }
      CapOutcome(old(model), model, maxEntries);
    }

    method GiveUpOne(ghost first: map<Key, Chunk>) returns (ok: bool)
      requires Valid() && maxEntries > 0 && OnlyFreedLost(first, model)
      modifies this`slots, this`size, this`model, this`fifo, this`fifoHead, this`fifoTail, this`evictions
      ensures Valid() && OnlyFreedLost(first, model)
      ensures OldestFirst(old(Queue()), old(model)) && OldestGone(first, old(model)) ==>
                OldestFirst(Queue(), model) && OldestGone(first, model)
      ensures !ok ==> model == old(model) && forall k: Key :: !IsFreed(model, k)
      ensures size == old(size) - (if ok then 1 else 0) && evictions + size == old(evictions + size)
    {
      ghost var before := model;
      ok := MakeRoom();
      if ok {
        LostOne(first, before, model);
        StillOldestGone(first, before, model);
      }
    }

    // -------------------------------------------------------------- the three event operations

    /** Records a live allocation.  A known key is overwritten in place; an unknown one is refused only when
        the table is at its cap and every record is live. */
    method InsertLive(key: Key, bytes: nat, usable: nat, allocMs: nat, tid: nat) returns (ok: bool)
      requires Valid()
      modifies this
      ensures Valid() && maxEntries == old(maxEntries)
      ensures ok <==> key != 0 && (key in old(model) || maxEntries == 0 || old(size) < maxEntries || exists k: Key :: IsFreed(old(model), k))
      ensures !ok ==> model == old(model)
      ensures ok && key in old(model) ==> model == old(model)[key := Recycled(old(model)[key], bytes, usable, allocMs, tid)]
      ensures ok && key !in old(model) ==>
                var rec := NewLive(key, bytes, usable, allocMs, tid);
                if maxEntries == 0 || old(size) < maxEntries then model == old(model)[key := rec]
                else exists k: Key :: IsFreed(old(model), k) && model == (old(model) - {k})[key := rec]
      ensures ok ==>
                && key in model && model[key].key == key && model[key].size == bytes && model[key].usable == usable
                && model[key].allocMs == allocMs && model[key].freeMs == 0 && model[key].tid == tid && model[key].state.Live?
      ensures drops == old(drops) + (if !ok && key != 0 then 1 else 0)
      ensures evictions + size == old(evictions + size) + (if ok && key !in old(model) then 1 else 0)
      ensures maxEntries > 0 && old(size) <= maxEntries ==> size <= maxEntries
      ensures key in old(model) || old(size) < maxEntries ==> Queue() == old(Queue())
      ensures key in old(model) ==> size == old(size)
    {
      if key == 0 {
        return false;
      }
      var found, at := Find(key);
      if found {
        Overwrite(at, Recycled(slots[at], bytes, usable, allocMs, tid));
        return true;
      }
      ok := InsertNew(NewLive(key, bytes, usable, allocMs, tid));
    }

    /** The second half of `insert_live`: a key the table does not hold. */
    method InsertNew(rec: Chunk) returns (ok: bool)
      requires Valid() && Occ(rec) && rec.key != 0 && rec.key !in model
      modifies this
      ensures Valid() && maxEntries == old(maxEntries)
      ensures ok <==> maxEntries == 0 || old(size) < maxEntries || exists k: Key :: IsFreed(old(model), k)
      ensures !ok ==> model == old(model)
      ensures ok ==>
                if maxEntries == 0 || old(size) < maxEntries then model == old(model)[rec.key := rec]
                else exists k: Key :: IsFreed(old(model), k) && model == (old(model) - {k})[rec.key := rec]
      ensures drops == old(drops) + (if ok then 0 else 1)
      ensures evictions + size == old(evictions + size) + (if ok then 1 else 0)
      ensures maxEntries > 0 && old(size) <= maxEntries ==> size <= maxEntries
      ensures old(size) < maxEntries ==> Queue() == old(Queue())
    {
      if maxEntries != 0 && size >= maxEntries {
        ok := MakeRoom();
        if !ok {
          drops := drops + 1;
          return;
        }
      }
      AddRecord(rec);
      return true;
    }

    method AddRecord(rec: Chunk)
      requires Valid() && Occ(rec) && rec.key != 0 && rec.key !in model
      modifies this`slots, this`size, this`model
      ensures Valid() && model == old(model)[rec.key := rec] && size == old(size) + 1
    {
      GrowIfFull();
      WithKey(model, rec.key, rec);
      Place(rec);
      size := size + 1;
    }

    /** Grows at 85% load, so that one more record leaves an empty slot. */
    method GrowIfFull()
      requires Valid()
      modifies this`slots
      ensures Valid() && (size + 1) * LOAD_DENOMINATOR <= |slots| * LOAD_NUMERATOR && size + 1 < |slots|
      ensures |slots| == old(|slots|) || ((size + 1) * 100 > old(|slots|) * 85 && |slots| < 4 * old(|slots|))
    {
      if (size + 1) * LOAD_DENOMINATOR > |slots| * LOAD_NUMERATOR {
        ghost var k := RoundedLog2(|slots| * 2);
        GrowTo(|slots| * 2);
      }
    }

    /** Moves a record to Freed and hints at it; false, and no change, for an unknown key. */
    method MarkFreed(key: Key, freeMs: nat) returns (ok: bool)
      requires Valid()
      modifies this`slots, this`model, this`fifo, this`fifoHead, this`fifoTail
      ensures Valid()
      ensures ok <==> key in old(model)
      ensures model == if ok then old(model)[key := old(model)[key].(state := Freed, freeMs := freeMs)] else old(model)
      ensures ok && maxEntries > 0 ==>
                var q := old(Queue());
                Queue() == (if |q| == maxEntries then q[1..] else q) + [key]
      ensures size == old(size)
    {
      var found, at := Find(key);
      if !found {
        return false;
      }
      Overwrite(at, slots[at].(state := Freed, freeMs := freeMs));
      PushFreed(key);
      return true;
    }
  }

  // ---------------------------------------------------------------- the queue as a ring

  /** The elements between two positions of a ring. */
  function Waiting(ring: seq<Key>, head: nat, tail: nat): seq<Key>
    requires head <= |ring| && tail <= |ring|
  {
    if head <= tail then ring[head..tail] else ring[head..] + ring[..tail]
  }

  lemma WaitingPush(ring: seq<Key>, head: nat, tail: nat, key: Key)
    requires |ring| > 1 && head < |ring| && tail < |ring|
    ensures var ring', tail' := ring[tail := key], Succ(|ring|, tail);
            var q := Waiting(ring, head, tail);
            if tail' == head then |q| == |ring| - 1 && Waiting(ring', Succ(|ring|, head), tail') == q[1..] + [key]
            else |q| < |ring| - 1 && Waiting(ring', head, tail') == q + [key]
  {
    var ring', tail' := ring[tail := key], Succ(|ring|, tail);
    var q := Waiting(ring, head, tail);
    if tail' == head {
      assert Waiting(ring', Succ(|ring|, head), tail') == q[1..] + [key];
    } else if head <= tail {
      assert ring'[head..tail] == ring[head..tail];
    }
  }

  // ---------------------------------------------------------------- eviction order

  /** The position of the first hint that is a freed record, `|q|` when there is none. */
  function FirstFreed(q: seq<Key>, m: map<Key, Chunk>): (f: nat)
    ensures f <= |q|
  {
    if q == [] then 0 else if IsFreed(m, q[0]) then 0 else 1 + FirstFreed(q[1..], m)
  }

  lemma HintTaken(q: seq<Key>, i: nat, key: Key, rest: seq<Key>)
    requires i <= |q| && q[i..] == [key] + rest
    ensures i < |q| && key == q[i] && rest == q[i + 1..]
  {
    assert q[i..][1..] == rest;
    assert q[i..][0] == key;
  }

  lemma {:induction false} FirstFreedAt(q: seq<Key>, m: map<Key, Chunk>, f: nat)
    requires f <= |q| && (f < |q| ==> IsFreed(m, q[f])) && forall j :: 0 <= j < f ==> !IsFreed(m, q[j])
    ensures FirstFreed(q, m) == f
  {
    if f > 0 {
      FirstFreedAt(q[1..], m, f - 1);
    }
  }

  lemma {:induction false} FirstFreedIsFirst(q: seq<Key>, m: map<Key, Chunk>)
    ensures var f := FirstFreed(q, m);
            && (f < |q| ==> IsFreed(m, q[f]))
            && forall i :: 0 <= i < f ==> !IsFreed(m, q[i])
  {
    if q != [] && !IsFreed(m, q[0]) {
      FirstFreedIsFirst(q[1..], m);
      forall i | 0 <= i < FirstFreed(q, m)
        ensures !IsFreed(m, q[i])
      {
        if i > 0 {
          assert q[i] == q[1..][i - 1];
        }
      }
    }
  }

  /** The freed record that was freed first, ties broken by address. */
  ghost predicate IsOldest(m: map<Key, Chunk>, k: Key) {
    && IsFreed(m, k)
    && forall x: Key :: IsFreed(m, x) ==> Leq((m[k].freeMs, k), (m[x].freeMs, x))
  }

  /** No freed record was freed before this one. */
  ghost predicate FreedFirst(m: map<Key, Chunk>, k: Key) {
    IsFreed(m, k) && forall x: Key :: IsFreed(m, x) ==> m[k].freeMs <= m[x].freeMs
  }

  /** `a` was freed before `b`, at the same time with the lower address counting as before. */
  predicate Earlier(m: map<Key, Chunk>, a: Key, b: Key) {
    a in m && b in m && (m[a].freeMs < m[b].freeMs || (m[a].freeMs == m[b].freeMs && a < b))
  }

  /** The hints are of freed records, the earliest freed first, none left out before the last of them. */
  ghost predicate OldestFirst(q: seq<Key>, m: map<Key, Chunk>) {
    && (forall i :: 0 <= i < |q| ==> IsFreed(m, q[i]))
    && (forall i, j :: 0 <= i < j < |q| ==> Earlier(m, q[i], q[j]))
    && (forall i, x: Key :: 0 <= i < |q| && IsFreed(m, x) && x !in q ==> Earlier(m, q[i], x))
  }

  /** What went from `m` to `m'` was freed before every freed record that stayed. */
  ghost predicate OldestGone(m: map<Key, Chunk>, m': map<Key, Chunk>) {
    forall k: Key, x: Key :: k in m && k !in m' && IsFreed(m', x) ==> Earlier(m, k, x)
  }

  lemma PopsOldest(q: seq<Key>, m: map<Key, Chunk>)
    ensures OldestFirst(q, m) && q != [] ==>
              FirstFreed(q, m) == 0 && OldestFirst(q[1..], m - {q[0]}) && OldestGone(m, m - {q[0]})
  {
    if OldestFirst(q, m) && q != [] {
      var m', q' := m - {q[0]}, q[1..];
      assert forall i :: 0 <= i < |q'| ==> q'[i] == q[i + 1];
      forall x: Key | IsFreed(m', x)
        ensures IsFreed(m, x) && Earlier(m, q[0], x)
      {
        if x in q {
          var j :| 0 <= j < |q| && q[j] == x;
          assert j > 0;
        }
      }
    }
  }

  lemma StillOldestGone(m: map<Key, Chunk>, before: map<Key, Chunk>, after: map<Key, Chunk>)
    requires OnlyFreedLost(m, before) && OnlyFreedLost(m, after)
    requires exists k: Key :: IsFreed(before, k) && after == before - {k}
    ensures OldestGone(m, before) && OldestGone(before, after) ==> OldestGone(m, after)
  {
  }

  /** Hint `i` is the last one for its key. */
  ghost predicate LastHint(q: seq<Key>, i: nat) {
    i < |q| && forall j :: i < j < |q| ==> q[j] != q[i]
  }

  /** Hints were given in the order of the frees: true as long as free times do not decrease. */
  ghost predicate HintsInOrder(q: seq<Key>, m: map<Key, Chunk>) {
    forall i: nat, j: nat :: i < j && LastHint(q, i) && LastHint(q, j) && IsFreed(m, q[i]) && IsFreed(m, q[j]) ==>
      m[q[i]].freeMs <= m[q[j]].freeMs
  }

  lemma {:induction false} LastHintOf(q: seq<Key>, k: Key) returns (i: nat)
    requires k in q
    ensures LastHint(q, i) && q[i] == k
  {
    var n := |q| - 1;
    if q[n] == k {
      i := n;
    } else {
      i := LastHintOf(q[..n], k);
      assert forall j :: i < j < |q| ==> q[j] != k by {
        assert forall j :: i < j < n ==> q[..n][j] == q[j];
      }
    }
  }

  /** Exactly when the record evicted is the one freed first, given hints in order and one for every freed
      record: when none freed strictly earlier has its last hint between the one taken and the victim's own
      last.  So always when the hint taken is itself the last. */
  lemma EvictsFreedFirst(q: seq<Key>, m: map<Key, Chunk>, last: nat)
    requires HintsInOrder(q, m) && (forall k: Key :: IsFreed(m, k) ==> k in q)
    requires FirstFreed(q, m) < |q| && LastHint(q, last) && q[last] == q[FirstFreed(q, m)]
    ensures FreedFirst(m, q[last]) <==> NoneEarlierBetween(q, m, FirstFreed(q, m), last)
  {
    var f := FirstFreed(q, m);
    FirstFreedIsFirst(q, m);
    if NoneEarlierBetween(q, m, f, last) {
      forall x: Key | IsFreed(m, x)
        ensures m[q[last]].freeMs <= m[x].freeMs
      {
        var j := LastHintOf(q, x);
        assert f <= j;
        NotEarlier(q, m, f, last, j);
      }
    }
  }

  ghost predicate NoneEarlierBetween(q: seq<Key>, m: map<Key, Chunk>, f: nat, last: nat)
    requires last < |q|
  {
    forall j: nat :: f < j < last && LastHint(q, j) && IsFreed(m, q[j]) && IsFreed(m, q[last]) ==> m[q[last]].freeMs <= m[q[j]].freeMs
  }

  lemma NotEarlier(q: seq<Key>, m: map<Key, Chunk>, f: nat, last: nat, j: nat)
    requires HintsInOrder(q, m) && f < |q| && LastHint(q, last) && q[last] == q[f] && IsFreed(m, q[last])
    requires NoneEarlierBetween(q, m, f, last) && f <= j && LastHint(q, j) && IsFreed(m, q[j])
    ensures m[q[last]].freeMs <= m[q[j]].freeMs
  {
    if f < last && j == f {
      assert q[last] == q[f];
    }
  }

  function FreedPairs(s: seq<Chunk>): seq<Pair> {
    if s == [] then []
    else FreedPairs(s[..|s| - 1]) + (if s[|s| - 1].state.Freed? then [(s[|s| - 1].freeMs, s[|s| - 1].key)] else [])
  }

  lemma {:induction false} FreedPairsAre(s: seq<Chunk>, x: Pair)
    ensures x in FreedPairs(s) <==> exists i: nat :: i < |s| && s[i].state.Freed? && x == (s[i].freeMs, s[i].key)
  {
    if s != [] {
      var t := s[..|s| - 1];
      FreedPairsAre(t, x);
      if x in FreedPairs(t) {
        var i: nat :| i < |t| && t[i].state.Freed? && x == (t[i].freeMs, t[i].key);
        assert s[i] == t[i];
      }
      if i: nat :| i < |s| && s[i].state.Freed? && x == (s[i].freeMs, s[i].key) {
        if i < |t| {
          assert t[i] == s[i];
        }
      }
    }
  }

  lemma SortedFreed(s: seq<Chunk>, m: map<Key, Chunk>)
    requires Rep(s, m)
    ensures var sorted := Sorted(FreedPairs(s));
            && (forall i :: 0 <= i < |sorted| ==> IsFreed(m, sorted[i].1))
            && ((exists k: Key :: IsFreed(m, k)) ==> sorted != [] && IsOldest(m, sorted[0].1))
  {
    var sorted := Sorted(FreedPairs(s));
    SortedIsSort(FreedPairs(s));
    forall i | 0 <= i < |sorted|
      ensures IsFreed(m, sorted[i].1) && sorted[i] == (m[sorted[i].1].freeMs, sorted[i].1)
    {
      SameElements(FreedPairs(s), sorted[i]);
      FreedPairsAre(s, sorted[i]);
    }
    forall x: Key | IsFreed(m, x)
      ensures (m[x].freeMs, x) in sorted
    {
      var i: nat :| At(s, i, x);
      FreedPairsAre(s, (m[x].freeMs, x));
      SameElements(FreedPairs(s), (m[x].freeMs, x));
    }
  }

  /** Distinct keys: no freed record is listed twice, and no more are listed than the map has. */
  lemma {:induction false} FreedListed(s: seq<Chunk>) returns (keys: set<Key>)
    requires Distinct(s)
    ensures ListedOnce(FreedPairs(s), keys) && forall k :: k in keys ==> Among(s, |s|, k)
  {
    keys := {};
    if s != [] {
      var n := |s| - 1;
      keys := FreedListed(s[..n]);
      forall k | k in keys
        ensures Among(s, n, k)
      {
        var i: nat :| i < n && At(s[..n], i, k);
        assert At(s, i, k);
      }
      if s[n].state.Freed? {
        assert s[n].key !in keys;
        ListedNext(FreedPairs(s[..n]), keys, (s[n].freeMs, s[n].key));
        keys := keys + {s[n].key};
        assert At(s, n, s[n].key);
      }
    }
  }

  ghost predicate ListedOnce(pairs: seq<Pair>, keys: set<Key>) {
    && |keys| == |pairs| && (forall i :: 0 <= i < |pairs| ==> pairs[i].1 in keys)
    && (forall i, j :: 0 <= i < j < |pairs| ==> pairs[i] != pairs[j])
  }

  lemma ListedNext(pairs: seq<Pair>, keys: set<Key>, x: Pair)
    requires ListedOnce(pairs, keys) && x.1 !in keys
    ensures ListedOnce(pairs + [x], keys + {x.1})
  {
  }

  /** Sorting keeps distinct pairs distinct. */
  lemma SortedDistinct(s: seq<Pair>)
    requires forall i, j :: 0 <= i < j < |s| ==> s[i] != s[j]
    ensures var t := Sorted(s); forall i, j :: 0 <= i < j < |t| ==> t[i] != t[j]
  {
    var t := Sorted(s);
    SortedIsSort(s);
    forall i, j | 0 <= i < j < |t|
      ensures t[i] != t[j]
    {
      if t[i] == t[j] {
        CountsTwice(t, i, j);
        CountsOnce(s, t[i]);
      }
    }
  }

  lemma CountsTwice(t: seq<Pair>, i: nat, j: nat)
    requires i < j < |t| && t[i] == t[j]
    ensures multiset(t)[t[i]] >= 2
  {
    assert t == t[..j] + t[j..];
    assert t[i] == t[..j][i] && t[j] == t[j..][0];
  }

  lemma {:induction false} CountsOnce(s: seq<Pair>, x: Pair)
    requires forall i, j :: 0 <= i < j < |s| ==> s[i] != s[j]
    ensures multiset(s)[x] <= 1
  {
    if s != [] {
      assert s == [s[0]] + s[1..];
      CountsOnce(s[1..], x);
      if s[0] == x {
        assert x !in s[1..];
      }
    }
  }

  /** The sorted list names each freed record once, in the order of the frees. */
  lemma FreedInOrder(s: seq<Chunk>, m: map<Key, Chunk>)
    requires Distinct(s) && Rep(s, m)
    ensures AllInOrder(Sorted(FreedPairs(s)), m) && |Sorted(FreedPairs(s))| <= |m|
  {
    var pairs := FreedPairs(s);
    SortedIsSort(pairs);
    NoMoreThan(s, m);
    forall i | 0 <= i < |pairs|
      ensures PairOf(m, Sorted(pairs)[i])
    {
      SameElements(pairs, Sorted(pairs)[i]);
      FreedPairsAre(s, Sorted(pairs)[i]);
    }
    forall x: Key | IsFreed(m, x)
      ensures (m[x].freeMs, x) in Sorted(pairs)
    {
      var i: nat :| At(s, i, x);
      FreedPairsAre(s, (m[x].freeMs, x));
      SameElements(pairs, (m[x].freeMs, x));
    }
    InOrderOf(Sorted(pairs), m);
  }

  lemma NoMoreThan(s: seq<Chunk>, m: map<Key, Chunk>)
    requires Distinct(s) && Rep(s, m)
    ensures |FreedPairs(s)| <= |m|
    ensures var t := Sorted(FreedPairs(s)); forall i, j :: 0 <= i < j < |t| ==> t[i] != t[j]
  {
    var keys := FreedListed(s);
    SubsetSize(keys, m.Keys);
    SortedDistinct(FreedPairs(s));
  }

  predicate PairOf(m: map<Key, Chunk>, p: Pair) {
    p.1 in m && p.0 == m[p.1].freeMs
  }

  lemma InOrderOf(sorted: seq<Pair>, m: map<Key, Chunk>)
    requires InOrder(sorted) && forall i, j :: 0 <= i < j < |sorted| ==> sorted[i] != sorted[j]
    requires forall i :: 0 <= i < |sorted| ==> PairOf(m, sorted[i])
    requires forall x: Key :: IsFreed(m, x) ==> (m[x].freeMs, x) in sorted
    ensures AllInOrder(sorted, m)
  {
  }

  ghost predicate AllInOrder(sorted: seq<Pair>, m: map<Key, Chunk>) {
    && (forall i :: 0 <= i < |sorted| ==> PairOf(m, sorted[i]))
    && (forall i, j :: 0 <= i < j < |sorted| ==> Earlier(m, sorted[i].1, sorted[j].1))
    && (forall x: Key :: IsFreed(m, x) ==> exists i :: 0 <= i < |sorted| && sorted[i].1 == x)
  }

  lemma HintsOf(sorted: seq<Pair>, q: seq<Key>, m: map<Key, Chunk>)
    requires AllInOrder(sorted, m) && |q| <= |sorted| && forall i :: 0 <= i < |q| ==> q[i] == sorted[i].1 && IsFreed(m, q[i])
    ensures OldestFirst(q, m)
    ensures |q| == |sorted| ==> forall k: Key :: IsFreed(m, k) ==> k in q
  {
    forall x: Key | IsFreed(m, x) && (x !in q || |q| == |sorted|)
      ensures x !in q ==> forall i :: 0 <= i < |q| ==> Earlier(m, q[i], x)
      ensures |q| == |sorted| ==> x in q
    {
      var j :| 0 <= j < |sorted| && sorted[j].1 == x;
      if j < |q| {
        assert q[j] == x;
      }
    }
  }

  // ---------------------------------------------------------------- slot-level operations

  lemma SameKey(hash: Hash, s: seq<Chunk>, m: map<Key, Chunk>, at: nat, c: Chunk)
    requires Table(hash, s, m) && at < |s| && Occ(s[at]) && Occ(c) && c.key == s[at].key
    ensures Table(hash, s[at := c], m[c.key := c])
  {
    RepReplace(s, m, at, c);
    assert (m - {c.key})[c.key := c] == m[c.key := c];
    var s' := s[at := c];
    forall i | 0 <= i < |s|
      ensures Backed(hash, s', i)
    {
      var _ := Backed(hash, s, i);
    }
  }

  ghost predicate Among(slots: seq<Chunk>, i: nat, k: Key) {
    exists x: nat :: x < i && At(slots, x, k)
  }

  lemma AmongNext(slots: seq<Chunk>, i: nat, k: Key)
    ensures Among(slots, i + 1, k) <==> Among(slots, i, k) || At(slots, i, k)
  {
  }

  /** The records of the first `i` slots. */
  ghost predicate Part(slots: seq<Chunk>, m: map<Key, Chunk>, part: map<Key, Chunk>, i: nat) {
    && (forall k :: k in part ==> k in m && part[k] == m[k])
    && (forall k: Key :: k in part <==> Among(slots, i, k))
  }

  lemma PartNext(slots: seq<Chunk>, m: map<Key, Chunk>, part: map<Key, Chunk>, i: nat)
    requires i < |slots| && Part(slots, m, part, i)
    requires FirstMet(slots, m, i)
    ensures if Occ(slots[i]) then slots[i].key !in part && Part(slots, m, part[slots[i].key := slots[i]], i + 1)
            else Part(slots, m, part, i + 1)
    ensures |part| <= |m|
  {
    SubsetSize(part.Keys, m.Keys);
    forall k: Key
      ensures Among(slots, i + 1, k) <==> Among(slots, i, k) || At(slots, i, k)
    {
      AmongNext(slots, i, k);
    }
  }

  /** Each slot's record is the map's, met for the first time. */
  ghost predicate FirstMet(slots: seq<Chunk>, m: map<Key, Chunk>, i: nat) {
    i < |slots| && Occ(slots[i]) ==>
      slots[i].key in m && m[slots[i].key] == slots[i] && !Among(slots, i, slots[i].key)
  }

  lemma AllFirstMet(slots: seq<Chunk>, m: map<Key, Chunk>)
    requires Distinct(slots) && Rep(slots, m)
    ensures forall i: nat :: FirstMet(slots, m, i)
  {
  }

  /** The reinsertion loop of `grow_to`. */
  method Rehash(hash: Hash, slots: seq<Chunk>, ghost m: map<Key, Chunk>, cap: nat) returns (out: seq<Chunk>)
    requires Table(hash, slots, m) && |m| < |slots| < cap
    ensures Table(hash, out, m) && |out| == cap
  {
    out := seq(cap, i => EMPTY_SLOT);
    AllFirstMet(slots, m);
    ghost var part: map<Key, Chunk> := map[];
    for i := 0 to |slots|
      invariant |out| == cap && Table(hash, out, part)
      invariant Part(slots, m, part, i)
    {
      var c := slots[i];
      PartNext(slots, m, part, i);
      if Occ(c) {
        out := PlaceInto(hash, out, part, c);
        part := part[c.key := c];
      }
    }
    forall k | k in m
      ensures k in part
    {
      var x: nat :| At(slots, x, k);
      assert Among(slots, |slots|, k);
    }
    assert part == m;
  }

  /** The state of an insertion with record `hand` on its way to `slot`: the slots and the record in hand
      together hold exactly the records of `full`. */
  ghost predicate Placing(hash: Hash, s: seq<Chunk>, full: map<Key, Chunk>, hand: Chunk, slot: nat, dist: nat) {
    && GoodHash(hash) && Ordered(hash, s) && Distinct(s)
    && Carried(hash, s, hand, slot, dist)
    && hand.key in full && full[hand.key] == hand
    && Rep(s, full - {hand.key})
  }

  lemma PlacingSettles(hash: Hash, s: seq<Chunk>, full: map<Key, Chunk>, hand: Chunk, slot: nat, dist: nat)
    requires Placing(hash, s, full, hand, slot, dist) && !Occ(s[slot])
    ensures Table(hash, s[slot := hand], full)
  {
    Settle(hash, s, hand, slot, dist);
    RepAdd(s, full - {hand.key}, slot, hand);
    assert (full - {hand.key})[hand.key := hand] == full;
  }

  lemma PlacingSwaps(hash: Hash, s: seq<Chunk>, full: map<Key, Chunk>, hand: Chunk, slot: nat, dist: nat, e: nat)
    requires Placing(hash, s, full, hand, slot, dist) && Occ(s[slot]) && D(hash, s, slot) < dist
    requires e < |s| && !Occ(s[e])
    ensures Placing(hash, s[slot := hand], full, s[slot], Succ(|s|, slot), D(hash, s, slot) + 1)
    ensures Dist(|s|, Succ(|s|, slot), e) < Dist(|s|, slot, e)
  {
    Displace(hash, s, hand, slot, dist, e);
    RepReplace(s, full - {hand.key}, slot, hand);
    assert ((full - {hand.key}) - {s[slot].key})[hand.key := hand] == full - {s[slot].key};
  }

  /** `place`: inserts a record whose key is absent, taking the slot of any record closer to home than the
      one in hand and carrying that one onward. */
  method PlaceInto(hash: Hash, slots: seq<Chunk>, ghost m: map<Key, Chunk>, rec: Chunk) returns (out: seq<Chunk>)
    requires Table(hash, slots, m) && |m| < |slots|
    requires Occ(rec) && rec.key !in m
    ensures Table(hash, out, m[rec.key := rec]) && |out| == |slots|
  {
    var n := |slots|;
    out := slots;
    ghost var e := HasEmpty(slots, m);
    ghost var full := m[rec.key := rec];
    var hand := rec;
    var slot, dist := hash(rec.key, n), 0;
    assert full - {hand.key} == m;
    while Occ(out[slot])
      invariant |out| == n && e < n && !Occ(out[e])
      invariant Placing(hash, out, full, hand, slot, dist)
      decreases Dist(n, slot, e)
    {
      var curDist := D(hash, out, slot);
      if curDist < dist {
        PlacingSwaps(hash, out, full, hand, slot, dist, e);
        var cur := out[slot];
        out := out[slot := hand];
        hand, dist := cur, curDist;
      } else {
        PassBy(hash, out, hand, slot, dist, e);
      }
      slot := Succ(n, slot);
      dist := dist + 1;
    }
    PlacingSettles(hash, out, full, hand, slot, dist);
    out := out[slot := hand];
  }

  ghost predicate Shifting(hash: Hash, t: seq<Chunk>, m: map<Key, Chunk>, i: nat) {
    GoodHash(hash) && |t| > 2 && Hole(hash, t, i) && Distinct(t) && Rep(t, m)
  }

  lemma ShiftStep(hash: Hash, t: seq<Chunk>, m: map<Key, Chunk>, i: nat)
    requires Shifting(hash, t, m, i)
    requires var j := Succ(|t|, i); Occ(t[j]) && D(hash, t, j) > 0
    ensures var j := Succ(|t|, i); Shifting(hash, t[i := t[j]][j := EMPTY_SLOT], m, j)
  {
    ShiftBack(hash, t, i);
    RepMove(t, m, i, Succ(|t|, i));
  }

  lemma WithKey(m: map<Key, Chunk>, key: Key, c: Chunk)
    requires key !in m
    ensures |m[key := c]| == |m| + 1
  {
    assert m[key := c].Keys == m.Keys + {key};
  }

  lemma WithoutKey(m: map<Key, Chunk>, key: Key)
    requires key in m
    ensures |m - {key}| == |m| - 1
    ensures forall k :: k in m - {key} ==> k in m && (m - {key})[k] == m[k]
  {
    assert m.Keys == (m - {key}).Keys + {key};
  }

  /** The loop of `erase`: empties slot `at`, pulling each displaced successor back one slot. */
  method ShiftOut(hash: Hash, slots: seq<Chunk>, ghost m: map<Key, Chunk>, at: nat) returns (out: seq<Chunk>)
    requires Table(hash, slots, m) && |m| < |slots| && |slots| > 2
    requires at < |slots| && Occ(slots[at])
    ensures Table(hash, out, m - {slots[at].key}) && |out| == |slots|
  {
    var n := |slots|;
    ghost var e := HasEmpty(slots, m);
    ghost var left := m - {slots[at].key};
    OpenHole(hash, slots, at);
    RepRemove(slots, m, at);
    out := slots;
    var i := at;
    while Occ(out[Succ(n, i)]) && D(hash, out, Succ(n, i)) != 0
      invariant |out| == n && i < n && i != e && e < n && !Occ(out[e])
      invariant Shifting(hash, out[i := EMPTY_SLOT], left, i)
      decreases Dist(n, i, e)
    {
      var j := Succ(n, i);
      ghost var t := out[i := EMPTY_SLOT];
      ShiftStep(hash, t, left, i);
      out := out[i := out[j]];
      assert out[j := EMPTY_SLOT] == t[i := t[j]][j := EMPTY_SLOT];
      i := j;
    }
    CloseHole(hash, out[i := EMPTY_SLOT], i);
    out := out[i := EMPTY_SLOT];
  }

  // ---------------------------------------------------------------- the source's hash

  lemma FibonacciIsGood()
    ensures GoodHash(Fibonacci)
  {
    forall k: Key, n: nat | n > 0
      ensures Fibonacci(k, n) < n
    {
      var w := 0x1_0000_0000_0000_0000;
      var x := k * 0x9E37_79B9_7F4A_7C15 % w;
      MulGap(x, w, n);
      assert x * n < w * n;
      DivBelow(x * n, n, w);
    }
  }

  /** For a power-of-two capacity it is the shift of the source, `x >> (64 - log2(capacity))`. */
  lemma FibonacciIsShift(key: Key, log2: nat)
    requires log2 <= 64
    ensures Fibonacci(key, Pow2(log2)) == Shr(key * 0x9E37_79B9_7F4A_7C15 % 0x1_0000_0000_0000_0000, 64 - log2)
  {
    var x := key * 0x9E37_79B9_7F4A_7C15 % 0x1_0000_0000_0000_0000;
    ShiftIsDiv(x, 64 - log2);
    Pow2Of64();
    Pow2Split(log2, 64 - log2);
    ScaledDiv(x, Pow2(log2), Pow2(64 - log2));
  }

  lemma ScaledDiv(x: nat, p: nat, q: nat)
    requires p > 0 && q > 0
    ensures p * q > 0 && x * p / (p * q) == x / q
  {
    var d, r := x / q, x % q;
    assert x == d * q + r;
    assert (d * q + r) * p == d * (p * q) + r * p by {
      assert (d * q + r) * p == (d * q) * p + r * p;
      assert (d * q) * p == d * (p * q);
    }
    MulGap(r, q, p);
    assert q * p == p * q;
    DivModUnique(x * p, p * q, d, r * p);
  }

  // ---------------------------------------------------------------- whole runs

  datatype Op =
    | OpInsert(key: Key, bytes: nat, usable: nat, ms: nat, tid: nat)
    | OpFree(key: Key, ms: nat)
    | OpErase(key: Key)
    | OpReserve(entries: nat)
    | OpClear

  /** A plain map doing what the table promises to do, with no cap set. */
  function OnMap(m: map<Key, Chunk>, op: Op): map<Key, Chunk> {
    match op
    case OpInsert(k, bytes, usable, ms, tid) =>
      if k == 0 then m
      else m[k := if k in m then Recycled(m[k], bytes, usable, ms, tid) else NewLive(k, bytes, usable, ms, tid)]
    case OpFree(k, ms) => if k in m then m[k := m[k].(state := Freed, freeMs := ms)] else m
    case OpErase(k) => m - {k}
    case OpReserve(_) => m
    case OpClear => map[]
  }

  function OnMapAll(m: map<Key, Chunk>, ops: seq<Op>): map<Key, Chunk> {
    if ops == [] then m else OnMap(OnMapAll(m, ops[..|ops| - 1]), ops[|ops| - 1])
  }

  /** What an operation may do to the map while the cap is `cap`: the plain map's step, except that a new
      record past the cap costs one freed record, or is refused when there is none. */
  ghost predicate Allowed(cap: nat, m: map<Key, Chunk>, op: Op, m': map<Key, Chunk>) {
    if op.OpInsert? && op.key != 0 && op.key !in m && 0 < cap <= |m| then
      if exists k: Key :: IsFreed(m, k) then exists k: Key :: IsFreed(m, k) && m' == OnMap(m - {k}, op)
      else m' == m
    else m' == OnMap(m, op)
  }

  method DoInsert(t: ChunkTable, op: Op)
    requires t.Valid() && op.OpInsert?
    modifies t
    ensures t.Valid() && t.maxEntries == old(t.maxEntries) && Allowed(t.maxEntries, old(t.model), op, t.model)
  {
    ghost var before := t.model;
    var _ := t.InsertLive(op.key, op.bytes, op.usable, op.ms, op.tid);
    if op.key != 0 && op.key !in before && 0 < t.maxEntries <= |before| && exists k: Key :: IsFreed(before, k) {
      var rec := NewLive(op.key, op.bytes, op.usable, op.ms, op.tid);
      ghost var k: Key :| IsFreed(before, k) && t.model == (before - {k})[op.key := rec];
      assert t.model == OnMap(before - {k}, op);
    }
  }

  method Do(t: ChunkTable, op: Op)
    requires t.Valid()
    modifies t
    ensures t.Valid() && t.maxEntries == old(t.maxEntries) && Allowed(t.maxEntries, old(t.model), op, t.model)
  {
    match op
    case OpInsert(_, _, _, _, _) => DoInsert(t, op);
    case OpFree(_, _) => DoFree(t, op);
    case OpErase(_) => DoErase(t, op);
    case OpReserve(n) => t.Reserve(n);
    case OpClear => t.Clear();
  }

  method DoFree(t: ChunkTable, op: Op)
    requires t.Valid() && op.OpFree?
    modifies t
    ensures t.Valid() && t.maxEntries == old(t.maxEntries) && t.model == OnMap(old(t.model), op)
  {
    var _ := t.MarkFreed(op.key, op.ms);
  }

  method DoErase(t: ChunkTable, op: Op)
    requires t.Valid() && op.OpErase?
    modifies t
    ensures t.Valid() && t.maxEntries == old(t.maxEntries) && t.model == OnMap(old(t.model), op)
  {
    var _ := t.Erase(op.key);
  }

  /** After any sequence of operations a lookup answers exactly as the plain map would, hit or miss, and the
      size is the map's. */
  method RunThenFind(hash: Hash, capacity: nat, ops: seq<Op>, key: Key) returns (hit: bool, rec: Chunk, size: nat)
    requires GoodHash(hash)
    ensures var m := OnMapAll(map[], ops);
            (hit <==> key in m) && (hit ==> rec == m[key]) && size == |m|
  {
    var t := new ChunkTable(hash, capacity);
    for i := 0 to |ops|
      invariant t.Valid() && t.maxEntries == 0 && t.model == OnMapAll(map[], ops[..i])
      invariant fresh(t)
    {
      Do(t, ops[i]);
      assert ops[..i + 1][..i] == ops[..i];
    }
    assert ops[..|ops|] == ops;
    var found, at := t.Find(key);
    return found, if found then t.slots[at] else EMPTY_SLOT, t.size;
  }

  /** The bound the source's comment promises after lowering the cap fails on a table with two live records. */
  method CapExceeded(hash: Hash) returns (size: nat, cap: nat)
    requires GoodHash(hash)
    ensures cap == 1 && size == 2
  {
    var t := new ChunkTable(hash, 16);
    var _ := t.InsertLive(16, 8, 24, 0, 1);
    var _ := t.InsertLive(48, 8, 24, 0, 1);
    assert LiveKeys(t.model) == {16, 48};
    t.SetMaxEntries(1);
    return t.size, t.maxEntries;
  }

  /** Two records under a cap of three, the first freed. */
  method FreedOnce(hash: Hash) returns (t: ChunkTable)
    requires GoodHash(hash)
    ensures fresh(t) && t.Valid() && t.maxEntries == 3 && t.size == 2 && t.Queue() == [16]
    ensures 16 in t.model && 48 in t.model
  {
    t := new ChunkTable(hash, 16);
    t.SetMaxEntries(3);
    var _ := t.InsertLive(16, 8, 24, 0, 1);
    var _ := t.InsertLive(48, 8, 24, 0, 1);
    var _ := t.MarkFreed(16, 1);
  }

  /** Then recycled, and the second one freed. */
  method RecycledOnce(hash: Hash) returns (t: ChunkTable)
    requires GoodHash(hash)
    ensures fresh(t) && t.Valid() && t.maxEntries == 3 && t.size == 2 && t.Queue() == [16, 48]
    ensures 16 in t.model && 48 in t.model && t.model[48].freeMs == 2
  {
    t := FreedOnce(hash);
    var _ := t.InsertLive(16, 8, 24, 0, 1);
    var _ := t.MarkFreed(48, 2);
  }

  /** An address freed, recycled and freed again still has its first hint in front: the record freed last
      goes before one freed earlier. */
  method StaleHintEvictsYounger(hash: Hash) returns (ok: bool, found: bool, freeMs: nat)
    requires GoodHash(hash)
    ensures ok && found && freeMs == 2
  {
    var t := RecycledOnce(hash);
    var _ := t.MarkFreed(16, 3);
    assert IsFreed(t.model, t.Queue()[0]) && t.Queue()[0] == 16;
    ok := t.MakeRoom();
    var gone, _ := t.Find(16);
    assert !gone;
    var at;
    found, at := t.Find(48);
    freeMs := t.slots[at].freeMs;
  }

  // ---------------------------------------------------------------- whole runs under a cap

  datatype Request = Plain(op: Op) | Cap(n: nat)

  /** Lowering the cap costs freed records only, and no more than need be. */
  ghost predicate Step(cap: nat, m: map<Key, Chunk>, req: Request, m': map<Key, Chunk>) {
    match req
    case Cap(n) => OnlyFreedLost(m, m') && (if n == 0 then m' == m else |m'| == Max(|LiveKeys(m)|, Min(|m|, n)))
    case Plain(op) => Allowed(cap, m, op, m')
  }

  function CapAfter(reqs: seq<Request>): nat {
    if reqs == [] then 0
    else if reqs[|reqs| - 1].Cap? then reqs[|reqs| - 1].n
    else CapAfter(reqs[..|reqs| - 1])
  }

  ghost predicate RunStep(reqs: seq<Request>, trace: seq<map<Key, Chunk>>, i: nat) {
    i < |reqs| && i + 1 < |trace| && Step(CapAfter(reqs[..i]), trace[i], reqs[i], trace[i + 1])
  }

  /** `trace` is a run: the empty map, then one step per request. */
  ghost predicate Run(reqs: seq<Request>, trace: seq<map<Key, Chunk>>) {
    && |trace| == |reqs| + 1 && trace[0] == map[]
    && forall i: nat :: i < |reqs| ==> RunStep(reqs, trace, i)
  }

  method Serve(t: ChunkTable, req: Request)
    requires t.Valid()
    modifies t
    ensures t.Valid() && t.maxEntries == (if req.Cap? then req.n else old(t.maxEntries))
    ensures Step(old(t.maxEntries), old(t.model), req, t.model)
  {
    match req
    case Cap(n) => t.SetMaxEntries(n);
    case Plain(op) => Do(t, op);
  }

  lemma RunSnoc(reqs: seq<Request>, trace: seq<map<Key, Chunk>>, req: Request, m: map<Key, Chunk>)
    requires Run(reqs, trace) && Step(CapAfter(reqs), trace[|reqs|], req, m)
    ensures Run(reqs + [req], trace + [m])
  {
    var reqs', trace' := reqs + [req], trace + [m];
    forall i: nat | i < |reqs'|
      ensures RunStep(reqs', trace', i)
    {
      assert reqs'[..i] == if i < |reqs| then reqs[..i] else reqs;
      var _ := RunStep(reqs, trace, i);
    }
  }

  /** Any run of operations and cap changes through the real table is a run of the map, and a lookup at its
      end answers as that map does. */
  method RunCapped(hash: Hash, capacity: nat, reqs: seq<Request>, key: Key)
      returns (hit: bool, rec: Chunk, size: nat, ghost trace: seq<map<Key, Chunk>>)
    requires GoodHash(hash)
    ensures Run(reqs, trace)
    ensures var m := trace[|reqs|];
            (hit <==> key in m) && (hit ==> rec == m[key]) && size == |m|
  {
    var t := new ChunkTable(hash, capacity);
    trace := [map[]];
    for i := 0 to |reqs|
      invariant t.Valid() && t.maxEntries == CapAfter(reqs[..i]) && fresh(t)
      invariant Run(reqs[..i], trace) && trace[i] == t.model
    {
      Serve(t, reqs[i]);
      RunSnoc(reqs[..i], trace, reqs[i], t.model);
      assert reqs[..i + 1] == reqs[..i] + [reqs[i]];
      trace := trace + [t.model];
    }
    assert reqs[..|reqs|] == reqs;
    var found, at := t.Find(key);
    return found, if found then t.slots[at] else EMPTY_SLOT, t.size, trace;
  }

  predicate Ends(req: Request, k: Key) {
    req.Plain? && (req.op == OpErase(k) || req.op.OpClear? || (req.op.OpFree? && req.op.key == k))
  }

  predicate Renews(req: Request, k: Key) {
    req.Plain? && req.op.OpInsert? && req.op.key == k
  }

  /** Whatever the caps, the other requests and the evictions they cause, a live record stays live and found
      until it is itself freed or erased or the table is cleared, and stays as it is unless it is recycled. */
  lemma {:induction false} LiveUntilFreed(reqs: seq<Request>, trace: seq<map<Key, Chunk>>, i: nat, j: nat, k: Key)
    requires Run(reqs, trace) && i <= j <= |reqs| && k in trace[i] && trace[i][k].state.Live?
    requires forall x :: i <= x < j ==> !Ends(reqs[x], k)
    ensures k in trace[j] && trace[j][k].state.Live?
    ensures (forall x :: i <= x < j ==> !Renews(reqs[x], k)) ==> trace[j][k] == trace[i][k]
    decreases j
  {
    if i < j {
      LiveUntilFreed(reqs, trace, i, j - 1, k);
      var _ := RunStep(reqs, trace, j - 1);
      StepKeepsLive(CapAfter(reqs[..j - 1]), trace[j - 1], reqs[j - 1], trace[j], k);
    }
  }

  lemma StepKeepsLive(cap: nat, m: map<Key, Chunk>, req: Request, m': map<Key, Chunk>, k: Key)
    requires Step(cap, m, req, m') && !Ends(req, k) && k in m && m[k].state.Live?
    ensures k in m' && m'[k].state.Live? && (!Renews(req, k) ==> m'[k] == m[k])
  {
  }

  /** Once within its cap, the table stays within it until the cap changes. */
  lemma {:induction false} CapHolds(reqs: seq<Request>, trace: seq<map<Key, Chunk>>, i: nat, j: nat)
    requires Run(reqs, trace) && i <= j <= |reqs| && |trace[i]| <= CapAfter(reqs[..i])
    requires CapAfter(reqs[..i]) > 0 && forall x :: i <= x < j ==> reqs[x].Plain?
    ensures |trace[j]| <= CapAfter(reqs[..j]) == CapAfter(reqs[..i])
    decreases j
  {
    if i < j {
      CapHolds(reqs, trace, i, j - 1);
      var _ := RunStep(reqs, trace, j - 1);
      assert reqs[..j][..j - 1] == reqs[..j - 1];
      StepWithinCap(CapAfter(reqs[..j - 1]), trace[j - 1], reqs[j - 1].op, trace[j]);
    }
  }

  lemma StepWithinCap(cap: nat, m: map<Key, Chunk>, op: Op, m': map<Key, Chunk>)
    requires Allowed(cap, m, op, m') && |m| <= cap && cap > 0
    ensures |m'| <= cap
  {
    if op.OpInsert? && op.key !in m && |m| == cap && exists x: Key :: IsFreed(m, x) {
      if op.key != 0 {
        var x: Key :| IsFreed(m, x) && m' == OnMap(m - {x}, op);
        WithoutKey(m, x);
        GrowsByOne(m - {x}, op);
      }
    } else {
      GrowsByOne(m, op);
    }
  }

  lemma GrowsByOne(m: map<Key, Chunk>, op: Op)
    ensures |OnMap(m, op)| <= |m| + (if op.OpInsert? && op.key != 0 && op.key !in m then 1 else 0)
  {
    var m' := OnMap(m, op);
    if op.OpInsert? && op.key !in m && op.key != 0 {
      assert m'.Keys == m.Keys + {op.key};
    } else {
      SubsetSize(m'.Keys, m.Keys);
    }
  }
}
