/** Reading a heap that was never instrumented, `heap_walker.cpp`: the block-buffered chain walk against a
    one-header-at-a-time walk, over a memory that is read in full.  `mem(a)` is the 64-bit word at `a`. */
module HeapWalkers {
  import opened Basics
  import opened Regions

  const WORD_BYTES: nat := 8
  const MIN_CHUNK: nat := 32
  const ALIGN: nat := 16
  const MIN_CHAIN_PROBE: nat := 4
  const MAX_PROBE_BYTES: nat := 8192
  const MAX_SCORE: nat := 64

  type Memory = nat -> nat

  datatype Walked = Walked(userPtr: nat, chunkSize: nat, usable: nat)

  /** The walk so far: where it stands, the chunk awaiting its successor's verdict, and what it has emitted
      and counted. */
  datatype Walk = Walk(at: nat, pending: Option<nat>, out: seq<Walked>, bytes: nat, freeChunks: nat, freeBytes: nat)

  function SizeOf(field: nat): nat {
    field - field % 8
  }

  predicate PrevInUse(field: nat) {
    field % 2 == 1
  }

  /** A chunk of size `n` at `here` is one the chain may be followed through. */
  predicate Follows(start: nat, end: nat, here: nat, n: nat) {
    start <= here && n >= MIN_CHUNK && n % ALIGN == 0 && here + n <= end && n <= end - start
  }

  // ---------------------------------------------------------------- one header at a time

  /** The verdict on the pending chunk, once its successor's header has been read. */
  function Verdict(w: Walk, inUse: bool): Walk {
    match w.pending
    case None => w
    case Some(n) =>
      if inUse && n <= w.at && n >= WORD_BYTES then
        w.(pending := None, out := w.out + [Walked(w.at - n + 2 * WORD_BYTES, n, n - WORD_BYTES)], bytes := w.bytes + (n - WORD_BYTES))
      else w.(pending := None, freeChunks := w.freeChunks + 1, freeBytes := w.freeBytes + n)
  }

  function Advance(w: Walk, n: nat): Walk {
    w.(at := w.at + n, pending := Some(n))
  }

  predicate Readable(w: Walk, end: nat) {
    w.at + 2 * WORD_BYTES <= end
  }

  /** One header of the reference walk, and whether it goes on. */
  function HeaderStep(mem: Memory, start: nat, end: nat, w: Walk): (Walk, bool) {
    var field := mem(w.at + WORD_BYTES);
    var on := Follows(start, end, w.at, SizeOf(field));
    (Judge(w, PrevInUse(field), on, SizeOf(field)), on)
  }

  /** Judges the pending chunk, then moves over the next one if it is to be followed. */
  function Judge(w: Walk, inUse: bool, on: bool, n: nat): Walk {
    if on then Advance(Verdict(w, inUse), n) else Verdict(w, inUse)
  }

  /** The reference walk: read a header, judge the chunk before it, follow it if it is one. */
  function Chain(mem: Memory, start: nat, end: nat, w: Walk): Walk
    decreases if end >= w.at then end - w.at else 0
  {
    if !Readable(w, end) then w
    else
      var (next, on) := HeaderStep(mem, start, end, w);
      if on then Chain(mem, start, end, next) else next
  }

  /** The walk is coherent: the pending chunk ends where the walk stands, and what was emitted lies in order
      below it, without overlap. */
  ghost predicate Coherent(w: Walk, from: nat, base: nat) {
    && base <= |w.out|
    && from <= w.at
    && (w.pending.Some? ==> MIN_CHUNK <= w.pending.value && from + w.pending.value <= w.at)
    && (forall i :: base <= i < |w.out| ==> InSpan(w.out[i], from, Judged(w)))
    && (forall i, j :: base <= i < j < |w.out| ==> Head(w.out[i]) + w.out[i].chunkSize <= Head(w.out[j]))
  }

  /** Everything below this address has had its verdict. */
  function Judged(w: Walk): int {
    w.at - (if w.pending.Some? then w.pending.value else 0)
  }

  function Head(c: Walked): int {
    c.userPtr - 2 * WORD_BYTES
  }

  predicate InSpan(c: Walked, lo: int, hi: int) {
    lo <= Head(c) && Head(c) + c.chunkSize <= hi && c.chunkSize >= MIN_CHUNK
  }

  function Bytes(cs: seq<Walked>): nat {
    if cs == [] then 0 else Bytes(cs[..|cs| - 1]) + cs[|cs| - 1].chunkSize
  }

  lemma {:induction false} BytesAppend(a: seq<Walked>, b: seq<Walked>)
    ensures Bytes(a + b) == Bytes(a) + Bytes(b)
  {
    if b == [] {
      assert a + b == a;
    } else {
      var n := |b| - 1;
      BytesAppend(a, b[..n]);
      assert (a + b)[..|a| + n] == a + b[..n];
    }
  }

  /** The emitted chunks, the free bytes and the pending chunk tile exactly what has been walked. */
  ghost predicate Tiles(w: Walk, from: nat, base: nat, free0: nat) {
    && Coherent(w, from, base)
    && w.freeBytes >= free0
    && Bytes(w.out[base..]) + (w.freeBytes - free0) == Judged(w) - from
  }

  lemma VerdictTiles(w: Walk, inUse: bool, from: nat, base: nat, free0: nat)
    requires Tiles(w, from, base, free0)
    ensures Tiles(Verdict(w, inUse), from, base, free0)
  {
    var w' := Verdict(w, inUse);
    if w.pending.Some? && |w'.out| > |w.out| {
      EmitTiles(w, w'.out[|w.out|], w', from, base, free0);
    }
  }

  /** Emitting the pending chunk extends the tiling by it. */
  lemma EmitTiles(w: Walk, c: Walked, w': Walk, from: nat, base: nat, free0: nat)
    requires Tiles(w, from, base, free0) && w.pending.Some?
    requires c.chunkSize == w.pending.value && Head(c) == w.at - c.chunkSize
    requires w' == w.(pending := None, out := w.out + [c], bytes := w'.bytes)
    ensures Tiles(w', from, base, free0)
  {
    EmitCoherent(w, c, w', from, base);
    EmitBytes(w.out, c, base);
  }

  lemma EmitBytes(out: seq<Walked>, c: Walked, base: nat)
    requires base <= |out|
    ensures Bytes((out + [c])[base..]) == Bytes(out[base..]) + c.chunkSize
  {
    assert (out + [c])[base..] == out[base..] + [c];
    BytesAppend(out[base..], [c]);
    assert Bytes([c]) == c.chunkSize;
  }

  lemma EmitCoherent(w: Walk, c: Walked, w': Walk, from: nat, base: nat)
    requires Coherent(w, from, base) && w.pending.Some?
    requires c.chunkSize == w.pending.value && Head(c) == w.at - c.chunkSize
    requires w' == w.(pending := None, out := w.out + [c], bytes := w'.bytes)
    ensures Coherent(w', from, base)
  {
    assert forall i :: base <= i < |w.out| ==> InSpan(w.out[i], from, Judged(w));
  }

  /** The walk only ever appends. */
  lemma {:induction false} ChainGrows(mem: Memory, start: nat, end: nat, w: Walk)
    ensures w.out <= Chain(mem, start, end, w).out
    decreases if end >= w.at then end - w.at else 0
  {
    if Readable(w, end) {
      var (next, on) := HeaderStep(mem, start, end, w);
      assert w.out <= next.out;
      if on {
        ChainGrows(mem, start, end, next);
      }
    }
  }

  lemma JudgeTiles(w: Walk, inUse: bool, on: bool, n: nat, from: nat, base: nat, free0: nat)
    requires Tiles(w, from, base, free0) && (on ==> n >= MIN_CHUNK)
    ensures Tiles(Judge(w, inUse, on, n), from, base, free0)
  {
    VerdictTiles(w, inUse, from, base, free0);
  }

  lemma HeaderStepIs(mem: Memory, start: nat, end: nat, w: Walk) returns (inUse: bool, n: nat)
    ensures var (next, on) := HeaderStep(mem, start, end, w);
            next == Judge(w, inUse, on, n) && (on ==> n >= MIN_CHUNK)
  {
    var field := mem(w.at + WORD_BYTES);
    inUse, n := PrevInUse(field), SizeOf(field);
  }

  /** The reference walk tiles the distance it walked, in order and without overlap. */
  lemma {:induction false} ChainTiles(mem: Memory, start: nat, end: nat, w: Walk, from: nat, base: nat, free0: nat)
    requires Tiles(w, from, base, free0)
    ensures Tiles(Chain(mem, start, end, w), from, base, free0)
    decreases if end >= w.at then end - w.at else 0
  {
    if Readable(w, end) {
      var (next, on) := HeaderStep(mem, start, end, w);
      var inUse, n := HeaderStepIs(mem, start, end, w);
      JudgeTiles(w, inUse, on, n, from, base, free0);
      if on {
        ChainTiles(mem, start, end, next, from, base, free0);
      }
    }
  }

  // ---------------------------------------------------------------- what the words in memory say

  /** The size in the header at `h`: the word after the first, without its three flag bits. */
  function SizeAt(mem: Memory, h: nat): nat {
    mem(h + 8) - mem(h + 8) % 8
  }

  /** A header at `h` that leads on to the one at `h + SizeAt(mem, h)`. */
  predicate LeadsOn(mem: Memory, start: nat, end: nat, h: nat) {
    && h + 16 <= end && SizeAt(mem, h) >= 32 && SizeAt(mem, h) % 16 == 0
    && h + SizeAt(mem, h) <= end && SizeAt(mem, h) <= end - start
  }

  /** The chain of headers from `hs[0]`: each leads to the next, and the last one leads nowhere. */
  ghost predicate HeaderChain(mem: Memory, start: nat, end: nat, hs: seq<nat>) {
    && hs != []
    && (forall k :: 0 <= k < |hs| - 1 ==> LeadsOn(mem, start, end, hs[k]) && hs[k + 1] == hs[k] + SizeAt(mem, hs[k]))
    && !LeadsOn(mem, start, end, hs[|hs| - 1])
  }

  /** The chunk at `h` is in use: its successor's header, when there is one to read, has the lowest bit set. */
  predicate UsedAt(mem: Memory, end: nat, h: nat) {
    h + SizeAt(mem, h) + 16 <= end && mem(h + SizeAt(mem, h) + 8) % 2 == 1
  }

  predicate FreeAt(mem: Memory, end: nat, h: nat) {
    h + SizeAt(mem, h) + 16 <= end && mem(h + SizeAt(mem, h) + 8) % 2 == 0
  }

  /** What a walk finds: the chunks in use, in order, and the free ones counted. */
  function Found(mem: Memory, end: nat, hs: seq<nat>): (seq<Walked>, nat, nat)
  {
    if |hs| < 2 then ([], 0, 0)
    else
      var (used, chunks, bytes) := Found(mem, end, hs[1..]);
      var h := hs[0];
      if UsedAt(mem, end, h) && SizeAt(mem, h) >= 8 then
        ([Walked(h + 16, SizeAt(mem, h), SizeAt(mem, h) - 8)] + used, chunks, bytes)
      else if FreeAt(mem, end, h) then (used, chunks + 1, bytes + SizeAt(mem, h))
      else (used, chunks, bytes)
  }

  /** The walk that stands at the header after `h`, with the chunk at `h` pending. */
  ghost predicate AfterHeader(mem: Memory, w: Walk, h: nat) {
    w.at == h + SizeAt(mem, h) && w.pending == Some(SizeAt(mem, h)) && SizeAt(mem, h) >= 32
  }

  lemma JudgeFound(mem: Memory, start: nat, end: nat, w: Walk, h: nat)
    requires AfterHeader(mem, w, h) && Readable(w, end)
    ensures HeaderStep(mem, start, end, w).1 == (start <= w.at && LeadsOn(mem, start, end, w.at))
    ensures Adds(w, HeaderStep(mem, start, end, w).0, One(mem, end, h))
  {
  }

  /** The bytes usable in these chunks. */
  function UsableIn(cs: seq<Walked>): nat {
    if cs == [] then 0 else cs[0].usable + UsableIn(cs[1..])
  }

  lemma {:induction false} UsableInBoth(a: seq<Walked>, b: seq<Walked>)
    ensures UsableIn(a + b) == UsableIn(a) + UsableIn(b)
  {
    if a == [] {
      assert a + b == b;
    } else {
      UsableInBoth(a[1..], b);
      assert (a + b)[1..] == a[1..] + b;
    }
  }

  /** Walk `v` is `w` with what was found added. */
  ghost predicate Adds(w: Walk, v: Walk, f: (seq<Walked>, nat, nat)) {
    && v.out == w.out + f.0 && v.freeChunks == w.freeChunks + f.1 && v.freeBytes == w.freeBytes + f.2
    && v.bytes == w.bytes + UsableIn(f.0)
  }

  /** What a single chunk adds. */
  function One(mem: Memory, end: nat, h: nat): (seq<Walked>, nat, nat) {
    if UsedAt(mem, end, h) && SizeAt(mem, h) >= 8 then ([Walked(h + 16, SizeAt(mem, h), SizeAt(mem, h) - 8)], 0, 0)
    else if FreeAt(mem, end, h) then ([], 1, SizeAt(mem, h))
    else ([], 0, 0)
  }

  ghost predicate Together(f: (seq<Walked>, nat, nat), g: (seq<Walked>, nat, nat), both: (seq<Walked>, nat, nat)) {
    both.0 == f.0 + g.0 && both.1 == f.1 + g.1 && both.2 == f.2 + g.2
  }

  lemma AddsBoth(w: Walk, u: Walk, v: Walk, f: (seq<Walked>, nat, nat), g: (seq<Walked>, nat, nat), both: (seq<Walked>, nat, nat))
    requires Adds(w, u, f) && Adds(u, v, g) && Together(f, g, both)
    ensures Adds(w, v, both)
  {
    UsableInBoth(f.0, g.0);
  }

  lemma FoundSplits(mem: Memory, end: nat, hs: seq<nat>)
    requires |hs| >= 2
    ensures Together(One(mem, end, hs[0]), Found(mem, end, hs[1..]), Found(mem, end, hs))
  {
    assert [] + Found(mem, end, hs[1..]).0 == Found(mem, end, hs[1..]).0;
  }

  /** A walk that stands at `hs[1]` with `hs[0]` pending finds exactly what the headers say. */
  lemma {:induction false} ChainFinds(mem: Memory, start: nat, end: nat, w: Walk, hs: seq<nat>)
    requires HeaderChain(mem, start, end, hs) && |hs| >= 2 && start <= hs[0] && AfterHeader(mem, w, hs[0])
    ensures Adds(w, Chain(mem, start, end, w), Found(mem, end, hs))
    decreases |hs|
  {
    Continues(mem, start, end, hs);
    FoundSplits(mem, end, hs);
    var v := Chain(mem, start, end, w);
    if !Readable(w, end) {
      assert One(mem, end, hs[0]) == ([], 0, 0);
      AddsBoth(w, w, v, One(mem, end, hs[0]), Found(mem, end, hs[1..]), Found(mem, end, hs));
    } else {
      var (next, on) := HeaderStep(mem, start, end, w);
      JudgeFound(mem, start, end, w, hs[0]);
      if on {
        NextHeader(mem, start, end, w, hs[1]);
        ChainFinds(mem, start, end, next, hs[1..]);
      } else {
        assert Adds(next, v, ([], 0, 0));
      }
      AddsBoth(w, next, v, One(mem, end, hs[0]), Found(mem, end, hs[1..]), Found(mem, end, hs));
    }
  }

  lemma Continues(mem: Memory, start: nat, end: nat, hs: seq<nat>)
    requires HeaderChain(mem, start, end, hs) && |hs| >= 2
    ensures LeadsOn(mem, start, end, hs[1]) <==> |hs| > 2
    ensures HeaderChain(mem, start, end, hs[1..]) && (|hs| == 2 ==> Found(mem, end, hs[1..]) == ([], 0, 0))
  {
    if |hs| > 2 {
      assert LeadsOn(mem, start, end, hs[1]);
    }
  }

  lemma NextHeader(mem: Memory, start: nat, end: nat, w: Walk, h: nat)
    requires w.at == h && LeadsOn(mem, start, end, h) && start <= h
    ensures AfterHeader(mem, HeaderStep(mem, start, end, w).0, h)
  {
  }

  /** From any first header: what the walk emits and counts is what the headers in memory say. */
  lemma ChainMeans(mem: Memory, start: nat, end: nat, w: Walk, hs: seq<nat>)
    requires HeaderChain(mem, start, end, hs) && start <= hs[0] == w.at && w.pending.None?
    ensures Adds(w, Chain(mem, start, end, w), Found(mem, end, hs))
  {
    if |hs| >= 2 {
      var (next, on) := HeaderStep(mem, start, end, w);
      assert on && AfterHeader(mem, next, hs[0]);
      ChainFinds(mem, start, end, next, hs);
    }
  }

  /** Such a chain of headers there is, from anywhere. */
  lemma {:induction false} ChainExists(mem: Memory, start: nat, end: nat, h: nat) returns (hs: seq<nat>)
    ensures HeaderChain(mem, start, end, hs) && hs[0] == h
    decreases if end >= h then end - h else 0
  {
    if LeadsOn(mem, start, end, h) {
      var rest := ChainExists(mem, start, end, h + SizeAt(mem, h));
      hs := [h] + rest;
    } else {
      hs := [h];
    }
  }

  /** A reported chunk, read off the words at its head and after its end. */
  predicate InUse(mem: Memory, c: Walked) {
    && c.userPtr >= 16 && c.chunkSize >= 8
    && c.chunkSize == SizeAt(mem, c.userPtr - 16) && c.usable == c.chunkSize - 8
    && mem(c.userPtr - 16 + c.chunkSize + 8) % 2 == 1
  }

  lemma {:induction false} FoundInUse(mem: Memory, end: nat, hs: seq<nat>)
    ensures forall c :: c in Found(mem, end, hs).0 ==> InUse(mem, c)
  {
    if |hs| >= 2 {
      FoundInUse(mem, end, hs[1..]);
    }
  }

  /** Every chunk any walk emits is in use by the words in memory. */
  lemma EmittedInUse(mem: Memory, start: nat, end: nat, w: Walk)
    requires start <= w.at && w.pending.None?
    ensures forall c :: c in Chain(mem, start, end, w).out ==> c in w.out || InUse(mem, c)
  {
    var hs := ChainExists(mem, start, end, w.at);
    ChainMeans(mem, start, end, w, hs);
    FoundInUse(mem, end, hs);
  }

  lemma AtHeader(mem: Memory, start: nat, end: nat, w: Walk, field: nat)
    requires Readable(w, end) && field == mem(w.at + WORD_BYTES)
    ensures var judged, n := Verdict(w, PrevInUse(field)), SizeOf(field);
            && Chain(mem, start, end, w) == (if Follows(start, end, w.at, n) then Chain(mem, start, end, Advance(judged, n)) else judged)
            && w.out <= judged.out && |judged.out| <= |w.out| + 1 && judged.at == w.at
            && judged.out <= Chain(mem, start, end, w).out
  {
    if Follows(start, end, w.at, SizeOf(field)) {
      ChainGrows(mem, start, end, Advance(Verdict(w, PrevInUse(field)), SizeOf(field)));
    }
  }

  // ---------------------------------------------------------------- block by block

  /** How a block ended: the chain ended in it, the chunk ceiling was hit, or its headers ran out. */
  datatype BlockEnd = ChainEnded | ChunkLimit | BlockDone

  /** The inner loop: follows the chain through the `avail` bytes read at `cursor`. */
  method WalkBlock(mem: Memory, start: nat, end: nat, w: Walk, avail: nat, found: nat, maxChunks: nat)
      returns (w': Walk, found': nat, how: BlockEnd)
    requires start <= w.at && w.at + avail <= end && avail >= 2 * WORD_BYTES && (found == 0 || found < maxChunks)
    ensures found' - found == |w'.out| - |w.out| && w.out <= w'.out
    ensures how.BlockDone? ==> w.at < w'.at <= end && Chain(mem, start, end, w') == Chain(mem, start, end, w)
    ensures how.ChainEnded? ==> w' == Chain(mem, start, end, w)
    ensures how.ChunkLimit? ==> found' >= maxChunks && w'.out <= Chain(mem, start, end, w).out
    ensures how.ChunkLimit? ==> found' > 0 && found' <= Max(maxChunks, 1)
    ensures !how.ChunkLimit? ==> found' == 0 || found' < maxChunks
  {
    var cursor, off := w.at, 0;
    w', found' := w, found;
    while off + 2 * WORD_BYTES <= avail
      invariant 0 <= off && w'.at == cursor + off <= end && (off == 0 || off >= MIN_CHUNK)
      invariant w.out <= w'.out && found' - found == |w'.out| - |w.out| && (found' == 0 || found' < maxChunks)
      invariant Chain(mem, start, end, w') == Chain(mem, start, end, w)
      decreases avail - off
    {
      var field := mem(cursor + off + WORD_BYTES);
      var n := SizeOf(field);
      AtHeader(mem, start, end, w', field);
      var judged := Verdict(w', PrevInUse(field));
      if |judged.out| > |w'.out| {
        found' := found' + 1;
        if found' >= maxChunks {
          return judged, found', ChunkLimit;
        }
      }
      if !Follows(start, end, cursor + off, n) {
        return judged, found', ChainEnded;
      }
      w' := Advance(judged, n);
      off := off + n;
    }
    how := BlockDone;
  }

  /** `walk_region` from the start of its chain.  Unless a ceiling was hit, the blocks see exactly the chain a
      header-by-header walk sees; with a ceiling hit, a prefix of it.  The ceilings are kept to, and nothing but
      reaching one cuts the walk short; `taken` counts the blocks read. */
  method WalkRegion(mem: Memory, start: nat, end: nat, w0: Walk, blockBytes: nat, maxBlocks: nat, maxChunks: nat)
      returns (w: Walk, found: nat, truncated: bool, ghost taken: nat)
    requires start <= w0.at <= end && blockBytes >= 2 * WORD_BYTES
    ensures found == |w.out| - |w0.out| && w0.out <= w.out
    ensures !truncated ==> w == Chain(mem, start, end, w0)
    ensures truncated ==> w.out <= Chain(mem, start, end, w0).out
    ensures taken <= maxBlocks && found <= Max(maxChunks, 1)
    ensures truncated ==> taken == maxBlocks || (found > 0 && found >= maxChunks)
    ensures !truncated ==> found == 0 || found < maxChunks
  {
    w, found, truncated, taken := w0, 0, false, 0;
    var blocks := 0;
    while w.at + 2 * WORD_BYTES <= end
      invariant start <= w.at <= end && !truncated
      invariant found == |w.out| - |w0.out| && w0.out <= w.out
      invariant Chain(mem, start, end, w) == Chain(mem, start, end, w0)
      invariant taken == blocks <= maxBlocks && (found == 0 || found < maxChunks)
      decreases end - w.at
    {
      blocks := blocks + 1;
      if blocks > maxBlocks {
        ChainGrows(mem, start, end, w);
        truncated := true;
        return;
      }
      var remaining := end - w.at;
      var want := if remaining < blockBytes then remaining else blockBytes;
      taken := taken + 1;
      var next, more, how := WalkBlock(mem, start, end, w, want, found, maxChunks);
      w, found := next, more;
      if how.ChunkLimit? {
        truncated := true;
        return;
      }
      if how.ChainEnded? {
        return;
      }
    }
  }

  // ---------------------------------------------------------------- finding where the chain begins

  predicate Plausible(n: nat, span: nat) {
    n >= MIN_CHUNK && n % ALIGN == 0 && n <= span
  }

  /** Where the `k`-th header of the chain from `from` is: each size leads to the next. */
  function HeaderAt(mem: Memory, start: nat, from: nat, k: nat): nat {
    if k == 0 then from
    else
      var off := HeaderAt(mem, start, from, k - 1);
      off + SizeOf(mem(start + off + WORD_BYTES))
  }

  predicate PlausibleAt(mem: Memory, start: nat, avail: nat, from: nat, span: nat, k: nat) {
    var off := HeaderAt(mem, start, from, k);
    off + 2 * WORD_BYTES <= avail && Plausible(SizeOf(mem(start + off + WORD_BYTES)), span)
  }

  /** `n` is the greatest number up to 64 such that the first `n` headers are all plausible. */
  ghost predicate IsScore(mem: Memory, start: nat, avail: nat, from: nat, span: nat, n: nat) {
    && n <= MAX_SCORE
    && (forall k: nat :: k < n ==> PlausibleAt(mem, start, avail, from, span, k))
    && (n < MAX_SCORE ==> !PlausibleAt(mem, start, avail, from, span, n))
  }

  /** The score; `ScoreChain` computes it. */
  ghost function Score(mem: Memory, start: nat, avail: nat, from: nat, span: nat): (s: nat)
    ensures s <= MAX_SCORE
  {
    if n: nat :| IsScore(mem, start, avail, from, span, n) then n else 0
  }

  lemma ScoreIsUnique(mem: Memory, start: nat, avail: nat, from: nat, span: nat, n: nat)
    requires IsScore(mem, start, avail, from, span, n)
    ensures Score(mem, start, avail, from, span) == n
  {
    var s := Score(mem, start, avail, from, span);
    assert IsScore(mem, start, avail, from, span, s);
  }

  method ScoreChain(mem: Memory, start: nat, avail: nat, from: nat, span: nat) returns (n: nat)
    ensures IsScore(mem, start, avail, from, span, n)
  {
    n := 0;
    var off := from;
    while off + 2 * WORD_BYTES <= avail && n < MAX_SCORE
      invariant off == HeaderAt(mem, start, from, n) && n <= MAX_SCORE
      invariant forall k: nat :: k < n ==> PlausibleAt(mem, start, avail, from, span, k)
      decreases MAX_SCORE - n
    {
      var size := SizeOf(mem(start + off + WORD_BYTES));
      if size < MIN_CHUNK || size % ALIGN != 0 || size > span {
        break;
      }
      off := off + size;
      n := n + 1;
    }
  }

  /** Candidate `k` is the offset `16 k`; it fits when a whole header lies below the limit. */
  predicate Candidate(limit: nat, k: nat) {
    k * ALIGN + 2 * WORD_BYTES <= limit
  }

  /** Headers that follow each other from candidate `k`. */
  ghost function ScoreAt(mem: Memory, start: nat, avail: nat, span: nat, k: nat): (s: nat)
    ensures s <= MAX_SCORE
  {
    Score(mem, start, avail, k * ALIGN, span)
  }

  /** No candidate reaches four headers, or the answer is the best-scoring one, the earliest of equals. */
  ghost predicate BestStart(mem: Memory, start: nat, avail: nat, span: nat, limit: nat, best: Option<nat>) {
    match best
    case None => forall k: nat :: Candidate(limit, k) ==> ScoreAt(mem, start, avail, span, k) < MIN_CHAIN_PROBE
    case Some(off) =>
      exists b: nat :: Candidate(limit, b) && off == b * ALIGN
        && ScoreAt(mem, start, avail, span, b) >= MIN_CHAIN_PROBE
        && (forall k: nat :: Candidate(limit, k) ==> ScoreAt(mem, start, avail, span, k) <= ScoreAt(mem, start, avail, span, b))
        && (forall k: nat :: k < b ==> ScoreAt(mem, start, avail, span, k) < ScoreAt(mem, start, avail, span, b))
  }

  /** As much as was read, up to 8 KiB. */
  function ProbeLimit(avail: nat): (n: nat)
    ensures n <= avail && n <= 8192 && (n == avail || n == 8192)
  {
    if avail < MAX_PROBE_BYTES then avail else MAX_PROBE_BYTES
  }

  /** At most one answer is the best start. */
  lemma BestIsUnique(mem: Memory, start: nat, avail: nat, span: nat, limit: nat, best: Option<nat>, other: Option<nat>)
    requires BestStart(mem, start, avail, span, limit, best) && BestStart(mem, start, avail, span, limit, other)
    ensures best == other
  {
    if best.Some? && other.Some? {
      var b: nat :| Candidate(limit, b) && best.value == b * ALIGN
        && (forall k: nat :: Candidate(limit, k) ==> ScoreAt(mem, start, avail, span, k) <= ScoreAt(mem, start, avail, span, b))
        && (forall k: nat :: k < b ==> ScoreAt(mem, start, avail, span, k) < ScoreAt(mem, start, avail, span, b));
      var c: nat :| Candidate(limit, c) && other.value == c * ALIGN
        && (forall k: nat :: Candidate(limit, k) ==> ScoreAt(mem, start, avail, span, k) <= ScoreAt(mem, start, avail, span, c))
        && (forall k: nat :: k < c ==> ScoreAt(mem, start, avail, span, k) < ScoreAt(mem, start, avail, span, c));
      assert b == c;
    }
  }

  /** The best start; `FindChainStart` computes it. */
  ghost function ChosenStart(mem: Memory, start: nat, avail: nat, span: nat): Option<nat> {
    if best :| BestStart(mem, start, avail, span, ProbeLimit(avail), best) then best else None
  }

  method ChooseStart(mem: Memory, start: nat, avail: nat, span: nat) returns (best: Option<nat>)
    ensures best == ChosenStart(mem, start, avail, span)
    ensures best.Some? ==> best.value + 2 * WORD_BYTES <= avail
  {
    best := FindChainStart(mem, start, avail, span);
    BestIsUnique(mem, start, avail, span, ProbeLimit(avail), best, ChosenStart(mem, start, avail, span));
  }

  method ScoreCandidate(mem: Memory, start: nat, avail: nat, span: nat, k: nat) returns (n: nat)
    ensures n == ScoreAt(mem, start, avail, span, k)
  {
    n := ScoreChain(mem, start, avail, k * ALIGN, span);
    ScoreIsUnique(mem, start, avail, k * ALIGN, span, n);
  }

  method FindChainStart(mem: Memory, start: nat, avail: nat, span: nat) returns (best: Option<nat>)
    ensures BestStart(mem, start, avail, span, ProbeLimit(avail), best)
  {
    var limit := ProbeLimit(avail);
    var bestK, bestScore, k := 0, 0, 0;
    while k * ALIGN + 2 * WORD_BYTES <= limit
      invariant forall j: nat :: j < k ==> ScoreAt(mem, start, avail, span, j) <= bestScore
      invariant bestScore > 0 ==> bestK < k && Candidate(limit, bestK) && bestScore == ScoreAt(mem, start, avail, span, bestK)
      invariant forall j: nat :: j < bestK ==> ScoreAt(mem, start, avail, span, j) < bestScore
      decreases limit - k * ALIGN
    {
      var score := ScoreCandidate(mem, start, avail, span, k);
      assert Candidate(limit, k);
      if score > bestScore {
        bestScore, bestK := score, k;
        if score >= MAX_SCORE {
          break;
        }
      }
      k := k + 1;
    }
    best := if bestScore >= MIN_CHAIN_PROBE then Some(bestK * ALIGN) else None;
  }

  // ---------------------------------------------------------------- the whole process

  datatype Limits = Limits(blockBytes: nat, maxBlocks: nat, maxChunks: nat)

  lemma {:induction false} ChainEnds(mem: Memory, start: nat, end: nat, w: Walk)
    requires w.at <= end
    ensures Chain(mem, start, end, w).at <= end
    decreases end - w.at
  {
    if Readable(w, end) {
      var (next, on) := HeaderStep(mem, start, end, w);
      if on {
        ChainEnds(mem, start, end, next);
      }
    }
  }

  lemma {:induction false} BytesPrefix(a: seq<Walked>, b: seq<Walked>)
    requires a <= b
    ensures Bytes(a) <= Bytes(b)
  {
    BytesAppend(a, b[|a|..]);
    assert b == a + b[|a|..];
  }

  /** Everything a region's walk adds lies inside the region and fits in it. */
  lemma RegionAdds(mem: Memory, start: nat, end: nat, w0: Walk, out: seq<Walked>)
    requires start <= w0.at <= end && w0.pending.None?
    requires w0.out <= out <= Chain(mem, start, end, w0).out
    ensures Bytes(out[|w0.out|..]) <= end - start
    ensures forall i :: |w0.out| <= i < |out| ==> start <= out[i].userPtr < end
  {
    var base, w := |w0.out|, Chain(mem, start, end, w0);
    assert w0.out[base..] == [];
    ChainTiles(mem, start, end, w0, w0.at, base, w0.freeBytes);
    ChainEnds(mem, start, end, w0);
    BytesPrefix(out[base..], w.out[base..]);
    forall i | base <= i < |out|
      ensures start <= out[i].userPtr < end
    {
      assert InSpan(w.out[i], w0.at, Judged(w));
    }
  }

  /** What the chain emits and the free chunks it passes fit in the region together. */
  lemma FreeFits(mem: Memory, start: nat, end: nat, w0: Walk)
    requires start <= w0.at <= end && w0.pending.None?
    ensures var w := Chain(mem, start, end, w0);
            && w0.out <= w.out && w0.freeBytes <= w.freeBytes
            && Bytes(w.out[|w0.out|..]) + (w.freeBytes - w0.freeBytes) <= end - start
  {
    assert w0.out[|w0.out|..] == [];
    ChainTiles(mem, start, end, w0, w0.at, |w0.out|, w0.freeBytes);
    ChainEnds(mem, start, end, w0);
    ChainGrows(mem, start, end, w0);
  }

  function Accounted(out: seq<Walked>, r: Region): nat {
    if out == [] then 0
    else
      var c := out[|out| - 1];
      Accounted(out[..|out| - 1], r) + (if r.start <= c.userPtr < r.end then c.chunkSize else 0)
  }

  lemma {:induction false} AccountedIsNew(out: seq<Walked>, base: nat, r: Region)
    requires base <= |out|
    requires forall i :: 0 <= i < base ==> !(r.start <= out[i].userPtr < r.end)
    requires forall i :: base <= i < |out| ==> r.start <= out[i].userPtr < r.end
    ensures Accounted(out, r) == Bytes(out[base..])
  {
    if out != [] {
      var n := |out| - 1;
      if base <= n {
        AccountedIsNew(out[..n], base, r);
        assert out[base..][..n - base] == out[..n][base..];
      } else {
        AccountedIsNew(out[..n], n, r);
        assert out[..n][n..] == [] && out[base..] == [];
      }
    }
  }

  predicate Walkable(r: Region) {
    r.allocatable && r.readable
  }

  /** The address space the walk is answerable for. */
  function Spans(regions: seq<Region>): int {
    if regions == [] then 0
    else
      var r := regions[|regions| - 1];
      Spans(regions[..|regions| - 1]) + (if r.allocatable && r.readable then r.end - r.start else 0)
  }

  /** Where the walk of a region begins: nowhere when the region is too small or shows no chain. */
  ghost function RegionStart(mem: Memory, r: Region, blockBytes: nat): Option<nat> {
    var span := r.end - r.start;
    if span < MIN_CHUNK then None
    else ChosenStart(mem, r.start, if span < blockBytes then span else blockBytes, span)
  }

  /** The header-by-header walk of one region, added to what earlier regions gave. */
  ghost function Followed(mem: Memory, r: Region, at: Option<nat>, sum: Walk): Walk {
    match at
    case None => sum
    case Some(off) => Chain(mem, r.start, r.end, sum.(at := r.start + off, pending := None))
  }

  /** The reference for all regions. */
  ghost function FollowedAll(mem: Memory, regions: seq<Region>, blockBytes: nat): Walk {
    if regions == [] then Walk(0, None, [], 0, 0, 0)
    else
      var n := |regions| - 1;
      var sum := FollowedAll(mem, regions[..n], blockBytes);
      if regions[n].allocatable && regions[n].readable then Followed(mem, regions[n], RegionStart(mem, regions[n], blockBytes), sum) else sum
  }

  /** The probe: one block read from the region's first byte. */
  method Probe(mem: Memory, r: Region, blockBytes: nat) returns (at: Option<nat>)
    requires r.start <= r.end
    ensures at == RegionStart(mem, r, blockBytes) && (at.Some? ==> r.start + at.value <= r.end)
  {
    if r.end <= r.start || r.end - r.start < MIN_CHUNK {
      return None;
    }
    var span := r.end - r.start;
    at := ChooseStart(mem, r.start, if span < blockBytes then span else blockBytes, span);
  }

  /** One region from where its chain begins.  `chained` says whether anything was found. */
  method RegionWalk(mem: Memory, r: Region, sum: Walk, limits: Limits, at: Option<nat>)
      returns (sum': Walk, chained: bool, truncated: bool)
    requires r.start <= r.end && limits.blockBytes >= 2 * WORD_BYTES
    requires at.Some? ==> r.start + at.value <= r.end
    ensures sum.out <= sum'.out <= Followed(mem, r, at, sum).out && (chained <==> |sum'.out| > |sum.out|)
    ensures !truncated ==> sum' == Followed(mem, r, at, sum)
    ensures Bytes(sum'.out[|sum.out|..]) <= r.end - r.start
    ensures !truncated ==> sum.freeBytes <= sum'.freeBytes
    ensures !truncated ==> Bytes(sum'.out[|sum.out|..]) + (sum'.freeBytes - sum.freeBytes) <= r.end - r.start
    ensures forall i :: |sum.out| <= i < |sum'.out| ==> r.start <= sum'.out[i].userPtr < r.end
    ensures forall c :: c in sum'.out ==> c in sum.out || InUse(mem, c)
  {
    if at.None? {
      return sum, false, false;
    }
    var w0 := sum.(at := r.start + at.value, pending := None);
    var w, found, cut, _ := WalkRegion(mem, r.start, r.end, w0, limits.blockBytes, limits.maxBlocks, limits.maxChunks);
    RegionAdds(mem, r.start, r.end, w0, w.out);
    FreeFits(mem, r.start, r.end, w0);
    EmittedInUse(mem, r.start, r.end, w0);
    return w, found > 0, cut;
  }

  /** What a region adds to the chunks and to `opaque`: together, exactly its span. */
  method AddRegion(mem: Memory, r: Region, sum: Walk, limits: Limits, at: Option<nat>)
      returns (sum': Walk, opaqueMore: nat, truncated: bool)
    requires r.start <= r.end && limits.blockBytes >= 2 * WORD_BYTES
    requires at.Some? ==> r.start + at.value <= r.end
    requires forall i :: 0 <= i < |sum.out| ==> sum.out[i].userPtr < r.start
    ensures !truncated ==> sum' == Followed(mem, r, at, sum)
    ensures sum.out <= sum'.out && Bytes(sum'.out) + opaqueMore == Bytes(sum.out) + (r.end - r.start)
    ensures !truncated ==> sum.freeBytes <= sum'.freeBytes <= sum.freeBytes + opaqueMore
    ensures forall c :: c in sum'.out ==> c in sum.out || InUse(mem, c)
    ensures forall i :: |sum.out| <= i < |sum'.out| ==> r.start <= sum'.out[i].userPtr < r.end
  {
    var chained;
    sum', chained, truncated := RegionWalk(mem, r, sum, limits, at);
    ghost var base := |sum.out|;
    AccountedIsNew(sum'.out, base, r);
    BytesAppend(sum.out, sum'.out[base..]);
    assert sum'.out == sum.out + sum'.out[base..];
    var accounted, span := Accounted(sum'.out, r), r.end - r.start;
    opaqueMore := if chained then (if span > accounted then span - accounted else 0) else span;
  }

  /** Every byte of every readable heap region ends up either in a reported chunk or in `opaque`: nothing is
      counted twice and nothing is lost, however the chains look.  With no ceiling hit, the chunks and all
      the sums are those of the header-by-header walk, and every free byte is counted in `opaque` as well. */
  method WalkAll(mem: Memory, regions: seq<Region>, limits: Limits) returns (sum: Walk, opaqueBytes: nat, truncated: bool)
    requires Ascending(regions) && limits.blockBytes >= 2 * WORD_BYTES
    ensures Bytes(sum.out) + opaqueBytes == Spans(regions)
    ensures !truncated ==> sum == FollowedAll(mem, regions, limits.blockBytes)
    ensures !truncated ==> sum.freeBytes <= opaqueBytes
    ensures forall c :: c in sum.out ==> InUse(mem, c)
  {
    sum, opaqueBytes, truncated := Walk(0, None, [], 0, 0, 0), 0, false;
    ghost var bound := 0;
    for i := 0 to |regions|
      invariant Bytes(sum.out) + opaqueBytes == Spans(regions[..i])
      invariant forall k :: 0 <= k < |sum.out| ==> sum.out[k].userPtr < bound
      invariant forall c :: c in sum.out ==> InUse(mem, c)
      invariant bound == (if i == 0 then 0 else regions[i - 1].end)
      invariant !truncated ==> sum == FollowedAll(mem, regions[..i], limits.blockBytes) && sum.freeBytes <= opaqueBytes
    {
      var r := regions[i];
      assert regions[..i + 1][..i] == regions[..i];
      assert i > 0 ==> regions[i - 1].end <= r.start <= r.end;
      if Walkable(r) {
        var at := Probe(mem, r, limits.blockBytes);
        var more, cut;
        sum, more, cut := AddRegion(mem, r, sum, limits, at);
        truncated := truncated || cut;
        opaqueBytes := opaqueBytes + more;
      }
      bound := r.end;
    }
    assert regions[..|regions|] == regions;
  }
}
