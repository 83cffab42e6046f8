/** The frame loop of `event_loop.cpp` over the double buffer of `framebuffer.cpp`: resize, draw, diff, write,
    swap.  The ghost field `term` is the terminal on the other end of the file descriptor. */
module EventLoops {
  import opened Basics
  import opened Terminals
  import opened Renderers
  import opened Utf8

  const MAX_CELLS: nat := 0x40_0000
  const EMPTY_CELL := Cell(0x20, 0xC0C0C0, 0, 0)

  class Framebuffer {
    var w: nat
    var h: nat
    var front: seq<Cell>
    var back: seq<Cell>

    ghost predicate Valid()
      reads this
    {
      && |front| == |back| == w * h
      && w <= MAX_SIDE && h <= MAX_SIDE
    }

    constructor ()
      ensures Valid() && w == h == 0
    {
      w, h, front, back := 0, 0, [], [];
    }

    /** Sizes and clears both buffers, or refuses and leaves them alone. */
    method Resize(nw: int, nh: int) returns (ok: bool)
      requires Valid()
      modifies this
      ensures Valid()
      ensures ok <==> nw > 0 && nh > 0 && nw * nh <= MAX_CELLS
      ensures ok ==> w == nw && h == nh && forall i :: 0 <= i < |front| ==> front[i] == back[i] == EMPTY_CELL
      ensures !ok ==> w == old(w) && h == old(h) && front == old(front) && back == old(back)
    {
      if nw <= 0 || nh <= 0 {
        return false;
      }
      if nw * nh > MAX_CELLS {
        return false;
      }
      w, h := nw, nh;
      front := seq(nw * nh, i => EMPTY_CELL);
      back := seq(nw * nh, i => EMPTY_CELL);
      return true;
    }

    /** UTF-8 in, cells out: decoded character `k` goes to column `x + k` of row `y` when that is on the grid,
        and nothing else changes. */
    method Text(x: int, y: int, utf8: seq<nat>, fg: nat, bg: nat, attrs: nat) returns (written: nat)
      requires Valid()
      modifies this`back
      ensures Valid()
      ensures y < 0 || y >= h ==> written == 0 && back == old(back)
      ensures 0 <= y < h ==> Written(old(back), back, y * w, w, x, DecodeAll(utf8, 0), fg, bg, attrs)
      ensures 0 <= y < h ==> written == OnRow(w, x + |DecodeAll(utf8, 0)|) - OnRow(w, x)
    {
      written := 0;
      if y < 0 || y >= h || w <= 0 {
        return;
      }
      RowFits(w, h, y);
      back, written := WriteRow(back, y * w, w, x, utf8, fg, bg, attrs);
    }

    /** The drawn buffer becomes the front one; the next frame starts blank. */
    method Swap()
      requires Valid()
      modifies this`front, this`back
      ensures Valid() && front == old(back) && forall i :: 0 <= i < |back| ==> back[i] == EMPTY_CELL
    {
      front := back;
      back := seq(|back|, i => EMPTY_CELL);
    }
  }

  /** How many of the row's columns lie left of `col`. */
  function OnRow(w: nat, col: int): int {
    if col < 0 then 0 else if col < w then col else w
  }

  /** `now` is `was` with the characters `cps` written from column `x` of the row starting at `base`, clipped
      to its `w` columns. */
  ghost predicate Written(was: seq<Cell>, now: seq<Cell>, base: nat, w: nat, x: int, cps: seq<nat>, fg: nat, bg: nat, attrs: nat) {
    && |now| == |was|
    && forall i :: 0 <= i < |was| ==>
         now[i] == if base <= i < base + w && x <= i - base < x + |cps| then Cell(cps[i - base - x], fg, bg, attrs) else was[i]
  }

  /** The loop of `text` over the row that starts at `base`. */
  method WriteRow(cells: seq<Cell>, base: nat, w: nat, x: int, utf8: seq<nat>, fg: nat, bg: nat, attrs: nat)
      returns (out: seq<Cell>, written: nat)
    requires base + w <= |cells|
    ensures Written(cells, out, base, w, x, DecodeAll(utf8, 0), fg, bg, attrs)
    ensures written == OnRow(w, x + |DecodeAll(utf8, 0)|) - OnRow(w, x)
  {
    out, written := cells, 0;
    var col, i := x, 0;
    ghost var cps, k := DecodeAll(utf8, 0), 0;
    while i < |utf8| && col < w
      invariant 0 <= i && 0 <= k && col == x + k && Remaining(utf8, i, cps, k)
      invariant Written(cells, out, base, w, x, cps[..k], fg, bg, attrs)
      invariant written == OnRow(w, col) - OnRow(w, x)
      decreases |utf8| - i
    {
      var cp, n := DecodeOne(utf8, i, cps, k);
      WrittenStep(cells, out, base, w, x, cps, k, fg, bg, attrs);
      if col >= 0 {
        out := out[base + col := Cell(cp, fg, bg, attrs)];
        written := written + 1;
      }
      i, col, k := i + n, col + 1, k + 1;
    }
    NoneRemain(utf8, i, cps, k);
    WrittenAll(cells, out, base, w, x, cps, k, fg, bg, attrs);
  }

  /** From byte `i` on, the characters from `k` on are left. */
  ghost predicate Remaining(utf8: seq<nat>, i: nat, cps: seq<nat>, k: nat) {
    k <= |cps| && DecodeAll(utf8, i) == cps[k..]
  }

  lemma NoneRemain(utf8: seq<nat>, i: nat, cps: seq<nat>, k: nat)
    requires Remaining(utf8, i, cps, k)
    ensures i >= |utf8| ==> k == |cps|
  {
  }

  /** What lies beyond the last column changes nothing. */
  lemma WrittenAll(was: seq<Cell>, now: seq<Cell>, base: nat, w: nat, x: int, cps: seq<nat>, k: nat, fg: nat, bg: nat, attrs: nat)
    requires k <= |cps| && (k == |cps| || x + k >= w) && Written(was, now, base, w, x, cps[..k], fg, bg, attrs)
    ensures Written(was, now, base, w, x, cps, fg, bg, attrs)
  {
  }

  method DecodeOne(utf8: seq<nat>, i: nat, ghost cps: seq<nat>, ghost k: nat) returns (cp: nat, n: nat)
    requires i < |utf8| && Remaining(utf8, i, cps, k)
    ensures n > 0 && k < |cps| && cps[k] == cp && Remaining(utf8, i + n, cps, k + 1)
  {
    var d := Decode(utf8, i);
    TextStep(utf8, i, cps, k, d);
    return d.0, d.1;
  }

  lemma TextStep(s: seq<nat>, i: nat, cps: seq<nat>, k: nat, d: (nat, nat))
    requires i < |s| && k <= |cps| && DecodeAll(s, i) == cps[k..] && d == Decode(s, i)
    ensures k < |cps| && cps[k] == d.0 && DecodeAll(s, i + d.1) == cps[k + 1..]
  {
    var rest := DecodeAll(s, i + d.1);
    assert cps[k..] == [d.0] + rest;
    assert cps[k + 1..] == cps[k..][1..];
  }

  lemma WrittenStep(was: seq<Cell>, now: seq<Cell>, base: nat, w: nat, x: int, cps: seq<nat>, k: nat, fg: nat, bg: nat, attrs: nat)
    requires k < |cps| && x + k < w && base + w <= |was| && Written(was, now, base, w, x, cps[..k], fg, bg, attrs)
    ensures var col := x + k;
            var now' := if col >= 0 then now[base + col := Cell(cps[k], fg, bg, attrs)] else now;
            Written(was, now', base, w, x, cps[..k + 1], fg, bg, attrs)
  {
  }

  // ---------------------------------------------------------------- inputs of one iteration

  /** What the application, the clock and the terminal do to one iteration.  `resize` is a pending SIGWINCH
      with the size then measured, if the measurement worked; `draw` paints a buffer of a given size. */
  datatype FrameInput = FrameInput(
    quit: bool, statsReset: bool, resize: Option<Option<(int, int)>>, drained: nat, updated: bool, animating: bool,
    draw: (nat, nat) -> seq<Cell>, writeOk: bool, keyDirty: bool, quitInWait: bool)

  datatype LoopConfig = LoopConfig(minWidth: int, minHeight: int, maxFrames: nat)

  datatype LoopStats = LoopStats(frames: nat, drawn: nat, skipped: nat, repaints: nat, writes: nat, bytesWritten: nat, events: nat)

  const NO_STATS := LoopStats(0, 0, 0, 0, 0, 0, 0)

  datatype LoopExit = Running | Quit | FrameLimit | TooSmall | WriteFailed | ResizeFailed

  /** A drawing callback fills a buffer of the size it is given. */
  ghost predicate Fills(draw: (nat, nat) -> seq<Cell>) {
    forall w: nat, h: nat :: |draw(w, h)| == w * h
  }

  ghost predicate DrawsDrawable(draw: (nat, nat) -> seq<Cell>) {
    forall w: nat, h: nat :: AllDrawable(draw(w, h))
  }

  predicate LegalSize(w: int, h: int) {
    w > 0 && h > 0 && w * h <= MAX_CELLS
  }

  /** From what size to what an iteration goes: to the one measured, or, when measuring failed, it stays, or
      becomes 80 x 24 when there is none to keep. */
  predicate Sizing(w0: nat, h0: nat, resize: Option<Option<(int, int)>>, w: nat, h: nat) {
    match resize
    case None => w == w0 && h == h0
    case Some(None) => if w0 > 0 && h0 > 0 then w == w0 && h == h0 else w == 80 && h == 24
    case Some(Some(size)) => w == size.0 && h == size.1
  }

  /** Below the minimum, or to be changed to something that is no buffer size. */
  predicate BadSize(cfg: LoopConfig, w0: nat, h0: nat, resize: Option<Option<(int, int)>>) {
    match resize
    case None => false
    case Some(None) =>
      if w0 > 0 && h0 > 0 then w0 < cfg.minWidth || h0 < cfg.minHeight else 80 < cfg.minWidth || 24 < cfg.minHeight
    case Some(Some(size)) =>
      || size.0 < cfg.minWidth || size.1 < cfg.minHeight
      || ((size.0 != w0 || size.1 != h0) && !LegalSize(size.0, size.1))
  }

  /** The size a resize request asks for: the measurement, else the current size, else 80 x 24. */
  function Wanted(w: nat, h: nat, measured: Option<(int, int)>): (int, int) {
    match measured
    case Some(size) => size
    case None => if w == 0 || h == 0 then (80, 24) else (w, h)
  }

  class EventLoop {
    const cfg: LoopConfig
    const fb: Framebuffer
    const r: Renderer
    var stats: LoopStats
    var dirty: bool
    var fullRepaint: bool
    ghost var term: Term

    /** Between iterations: every iteration was drawn or skipped. */
    ghost predicate Valid()
      reads this, fb, r
    {
      && fb.Valid() && GoodPalette(r.palette)
      && (fullRepaint ==> dirty)
      && stats.frames == stats.drawn + stats.skipped
      && stats.writes <= stats.drawn
    }

    /** Unless a full repaint is due the terminal shows the front buffer. */
    ghost predicate InSync()
      reads this, fb, r
    {
      fullRepaint || Shows(r.mode, r.palette, term, fb.w, fb.front)
    }

    constructor (cfg: LoopConfig, mode: ColorMode, palette: Palette, ghost t: Term)
      requires GoodPalette(palette)
      ensures Valid() && dirty && fullRepaint && stats == NO_STATS && fresh(fb) && fresh(r)
      ensures this.cfg == cfg && r.mode == mode && r.palette == palette
    {
      this.cfg := cfg;
      fb := new Framebuffer();
      r := new Renderer(mode, palette);
      stats, dirty, fullRepaint := NO_STATS, true, true;
      term := t;
    }

    /** The defined point for a resize: only here are buffers replaced, and then everything is repainted. */
    method TakeResize(measured: Option<(int, int)>) returns (exit: LoopExit)
      requires fb.Valid()
      modifies fb, this`stats, this`dirty, this`fullRepaint
      ensures fb.Valid()
      ensures measured.Some? ==>
                var width, height := measured.value.0, measured.value.1;
                && exit == (if width < cfg.minWidth || height < cfg.minHeight then TooSmall
                            else if (width == old(fb.w) && height == old(fb.h)) || LegalSize(width, height) then Running
                            else ResizeFailed)
                && (exit == Running ==> fb.w == width && fb.h == height)
      ensures measured.None? && old(fb.w) > 0 && old(fb.h) > 0 ==>
                && exit == (if old(fb.w) < cfg.minWidth || old(fb.h) < cfg.minHeight then TooSmall else Running)
                && fb.w == old(fb.w) && fb.h == old(fb.h)
      ensures measured.None? && (old(fb.w) == 0 || old(fb.h) == 0) ==>
                && exit == (if 80 < cfg.minWidth || 24 < cfg.minHeight then TooSmall else Running)
                && (exit == Running ==> fb.w == 80 && fb.h == 24)
      ensures exit != Running ==> fb.w == old(fb.w) && fb.h == old(fb.h)
      ensures if fb.w != old(fb.w) || fb.h != old(fb.h) then dirty && fullRepaint && stats == old(stats).(repaints := old(stats).repaints + 1)
              else dirty == old(dirty) && fullRepaint == old(fullRepaint) && stats == old(stats) && fb.front == old(fb.front)
    {
      var (w, h) := Wanted(fb.w, fb.h, measured);
      if w < cfg.minWidth || h < cfg.minHeight {
        return TooSmall;
      }
      if w != fb.w || h != fb.h {
        var ok := fb.Resize(w, h);
        if !ok {
          return ResizeFailed;
        }
        stats := stats.(repaints := stats.repaints + 1);
        fullRepaint, dirty := true, true;
      }
      return Running;
    }

    /** Draw, diff, write, swap: the exact effect on a terminal showing anything. */
    method DrawFrame(draw: (nat, nat) -> seq<Cell>, writeOk: bool, ghost env: Term) returns (ok: bool)
      requires fb.Valid() && GoodPalette(r.palette) && Fills(draw)
      requires env.w == fb.w && |env.screen| == fb.w * fb.h
      modifies fb, r, this
      ensures fb.Valid() && fb.w == old(fb.w) && fb.h == old(fb.h)
      ensures ok ==> !dirty && !fullRepaint && fb.front == draw(fb.w, fb.h)
      ensures ok ==> Drawn(r.mode, r.palette, fb.w, old(fb.front), fb.front, old(fullRepaint), env, term)
      ensures ok ==> stats == WithOutput(old(stats), true, r.out)
      ensures ok <==> r.out == [] || writeOk
    {
      fb.back := draw(fb.w, fb.h);
      r.Render(fb.w, fb.h, fb.front, fb.back, fullRepaint, env);
      var bytes := r.out;
      if |bytes| != 0 {
        if !writeOk {
          return false;
        }
        stats := stats.(writes := stats.writes + 1, bytesWritten := stats.bytesWritten + |bytes|);
      }
      if Sane(env) {
        NeverUndrawable(r.mode, r.palette, env, bytes, fb.w, fb.back);
      }
      term := Feed(env, Ground, bytes);
      fb.Swap();
      stats := stats.(drawn := stats.drawn + 1);
      dirty, fullRepaint := false, false;
      return true;
    }

    /** The second half of an iteration: draw if anything is dirty, else skip. */
    method DrawOrSkip(input: FrameInput, ghost env: Term) returns (ok: bool, drew: bool)
      requires fb.Valid() && GoodPalette(r.palette) && Fills(input.draw) && (fullRepaint ==> dirty)
      requires env.w == fb.w && |env.screen| == fb.w * fb.h
      requires stats.frames == stats.drawn + stats.skipped + 1 && stats.writes <= stats.drawn
      modifies this, fb, r
      ensures fb.w == old(fb.w) && fb.h == old(fb.h)
      ensures drew <==> old(dirty) || input.drained != 0 || input.updated || input.animating
      ensures ok ==> Valid() && !fullRepaint
      ensures ok && drew ==> fb.front == input.draw(fb.w, fb.h)
      ensures ok && drew ==> Drawn(r.mode, r.palette, fb.w, old(fb.front), fb.front, old(fullRepaint), env, term)
      ensures !drew ==> ok && fb.front == old(fb.front) && term == env
      ensures ok && DrawsDrawable(input.draw) && (old(fullRepaint) || Shows(r.mode, r.palette, env, fb.w, old(fb.front))) ==>
                Shows(r.mode, r.palette, term, fb.w, fb.front)
      ensures ok ==> stats == WithOutput(old(stats), drew, r.out).(events := old(stats).events + input.drained)
      ensures ok ==> dirty == input.keyDirty
      ensures ok <==> !drew || r.out == [] || input.writeOk
    {
      stats := stats.(events := stats.events + input.drained);
      if input.drained != 0 || input.updated || input.animating {
        dirty := true;
      }
      drew := dirty;
      if dirty {
        ok := DrawFrame(input.draw, input.writeOk, env);
        if !ok {
          return;
        }
      } else {
        stats := stats.(skipped := stats.skipped + 1);
        term := env;
      }
      if input.keyDirty {
        dirty := true;
      }
      ok := true;
    }

    /** One iteration.  `env` is the terminal as this iteration finds it, after any resize: it has the
        buffer's size, and its contents, pen and cursor are anybody's.  Afterwards the terminal shows the front
        buffer exactly when a drawn frame renewed every cell that was not already right, or a skipped one found
        all of them right; so always, for drawable cells, after a size change, and always when the contents
        were left alone.  This holds of every iteration that completes, even one whose wait then ends the loop;
        one that ends the loop before doing anything leaves all in order. */
    method Frame(input: FrameInput, ghost env: Term) returns (exit: LoopExit, completed: bool, drew: bool)
      requires Valid() && Fills(input.draw) && Fits(fb.w, fb.h, input, env)
      modifies this, fb, r
      ensures exit == Running ==> completed
      ensures completed ==> exit == (if input.quitInWait then Quit else Running)
      ensures completed ==> Valid() && !fullRepaint
      ensures completed ==> stats.frames == (if input.statsReset then 0 else old(stats).frames) + 1
      ensures completed ==>
                var resized := fb.w != old(fb.w) || fb.h != old(fb.h);
                && (drew <==> old(dirty) || input.statsReset || resized || input.drained != 0 || input.updated || input.animating)
                && (drew ==> fb.front == input.draw(fb.w, fb.h))
                && (drew ==> Drawn(r.mode, r.palette, fb.w, old(fb.front), fb.front, old(fullRepaint) || resized, env, term))
                && (!drew ==> fb.front == old(fb.front) && term == env)
      ensures completed && DrawsDrawable(input.draw) && old(InSync()) && LeftAlone(old(fb.w), old(fb.h), old(fullRepaint), old(term), input, env) ==>
                Shows(r.mode, r.palette, term, fb.w, fb.front)
      ensures completed ==> stats.drawn == (if input.statsReset then 0 else old(stats).drawn) + (if drew then 1 else 0)
      ensures completed ==> dirty == input.keyDirty
      ensures !completed ==>
                input.quit || exit == FrameLimit || !input.writeOk || BadSize(cfg, old(fb.w), old(fb.h), input.resize)
      ensures exit == FrameLimit <==> !input.quit && cfg.maxFrames != 0 && (if input.statsReset then 0 else old(stats).frames) >= cfg.maxFrames
      ensures completed ==> Sizing(old(fb.w), old(fb.h), input.resize, fb.w, fb.h)
      ensures exit != Quit && exit != FrameLimit ==>
                (exit == TooSmall || exit == ResizeFailed <==> BadSize(cfg, old(fb.w), old(fb.h), input.resize))
      ensures exit == Quit || exit == FrameLimit ==> Valid()
      ensures !completed && (exit == Quit || exit == FrameLimit) ==>
                term == old(term) && fb.w == old(fb.w) && fb.front == old(fb.front) && fullRepaint == old(fullRepaint)
    {
      completed, drew := false, false;
      exit := Prepare(input);
      if exit == Running {
        completed, drew := Complete(input, env, old(fb.w), old(fb.h), old(fb.front), old(dirty), old(fullRepaint), old(InSync()), old(term));
        exit := if !completed then WriteFailed else if input.quitInWait then Quit else Running;
      }
    }

    /** The second half, told what the first half found. */
    method Complete(input: FrameInput, ghost env: Term, ghost w0: nat, ghost h0: nat, ghost front0: seq<Cell>,
                    ghost dirty0: bool, ghost full0: bool, ghost synced0: bool, ghost term0: Term) returns (completed: bool, drew: bool)
      requires fb.Valid() && GoodPalette(r.palette) && Fills(input.draw) && Fits(w0, h0, input, env)
      requires Sizing(w0, h0, input.resize, fb.w, fb.h)
      requires stats.frames == stats.drawn + stats.skipped + 1 && stats.writes <= stats.drawn
      requires var resized := fb.w != w0 || fb.h != h0;
               && (fullRepaint <==> full0 || resized) && (dirty <==> dirty0 || input.statsReset || resized)
               && (full0 ==> dirty0) && (!resized ==> fb.front == front0)
      requires synced0 ==> full0 || Shows(r.mode, r.palette, term0, w0, front0)
      modifies this, fb, r
      ensures fb.w == old(fb.w) && fb.h == old(fb.h)
      ensures completed ==> Valid() && !fullRepaint && stats.frames == old(stats).frames
      ensures completed ==> stats.drawn == old(stats).drawn + (if drew then 1 else 0)
      ensures completed ==> dirty == input.keyDirty
      ensures completed ==>
                var resized := fb.w != w0 || fb.h != h0;
                && (drew <==> dirty0 || input.statsReset || resized || input.drained != 0 || input.updated || input.animating)
                && (drew ==> fb.front == input.draw(fb.w, fb.h))
                && (drew ==> Drawn(r.mode, r.palette, fb.w, front0, fb.front, full0 || resized, env, term))
                && (!drew ==> fb.front == front0 && term == env)
      ensures completed && DrawsDrawable(input.draw) && synced0 && LeftAlone(w0, h0, full0, term0, input, env) ==>
                Shows(r.mode, r.palette, term, fb.w, fb.front)
      ensures !completed ==> !input.writeOk
    {
      completed, drew := DrawOrSkip(input, env);
    }

    /** The first half of an iteration: quit, stats reset, frame limit, resize. */
    method Prepare(input: FrameInput) returns (exit: LoopExit)
      requires Valid()
      modifies fb, this`stats, this`dirty, this`fullRepaint
      ensures fb.Valid()
      ensures exit == Running || exit == Quit || exit == FrameLimit || exit == TooSmall || exit == ResizeFailed
      ensures exit == Quit <==> input.quit
      ensures exit == FrameLimit <==> !input.quit && cfg.maxFrames != 0 && (if input.statsReset then 0 else old(stats).frames) >= cfg.maxFrames
      ensures exit == Quit || exit == FrameLimit ==>
                Valid() && fb.w == old(fb.w) && fb.h == old(fb.h) && fb.front == old(fb.front) && fullRepaint == old(fullRepaint)
      ensures exit == TooSmall || exit == ResizeFailed ==> BadSize(cfg, old(fb.w), old(fb.h), input.resize)
      ensures exit == Running ==> !BadSize(cfg, old(fb.w), old(fb.h), input.resize) && Sizing(old(fb.w), old(fb.h), input.resize, fb.w, fb.h)
      ensures exit == Running ==>
                var resized := fb.w != old(fb.w) || fb.h != old(fb.h);
                && (fullRepaint <==> old(fullRepaint) || resized)
                && (dirty <==> old(dirty) || input.statsReset || resized)
                && (!resized ==> fb.front == old(fb.front))
                && stats.frames == stats.drawn + stats.skipped + 1 && stats.writes <= stats.drawn
      ensures exit == Running ==>
                var was := if input.statsReset then NO_STATS else old(stats);
                stats == was.(frames := was.frames + 1, repaints := was.repaints + (if fb.w != old(fb.w) || fb.h != old(fb.h) then 1 else 0))
    {
      if input.quit {
        return Quit;
      }
      if input.statsReset {
        stats, dirty := NO_STATS, true;
      }
      if cfg.maxFrames != 0 && stats.frames >= cfg.maxFrames {
        return FrameLimit;
      }
      stats := stats.(frames := stats.frames + 1);
      exit := Running;
      if input.resize.Some? {
        exit := TakeResize(input.resize.value);
      }
    }

    /** Any run of the loop, against any world.  Unless a resize was refused or a write failed, every iteration
        since the last stats reset was drawn or skipped.  If the world leaves the contents alone whenever the
        size stays the same, and cells are drawable, the terminal shows the front buffer as soon as any
        iteration completed.  `done` iterations did. */
    method Run(script: seq<FrameInput>, ghost world: World) returns (exit: LoopExit, done: nat)
      requires Valid() && InSync() && Shaped(world) && forall i :: 0 <= i < |script| ==> Fills(script[i].draw)
      requires script != [] ==> script[0].resize.Some?
      modifies this, fb, r
      ensures done <= |script| && (exit == Running ==> done == |script|)
      ensures exit == Running || exit == Quit || exit == FrameLimit ==> Valid()
      ensures Quiet(world) && (forall i :: 0 <= i < |script| ==> DrawsDrawable(script[i].draw)) &&
              done > 0 && (exit == Running || exit == Quit || exit == FrameLimit) ==>
                !fullRepaint && Shows(r.mode, r.palette, term, fb.w, fb.front)
    {
      exit, done := Running, 0;
      ghost var calm := Quiet(world) && forall i :: 0 <= i < |script| ==> DrawsDrawable(script[i].draw);
      for i := 0 to |script|
        invariant Valid() && exit == Running && done == i
        invariant calm ==> InSync()
        invariant i > 0 ==> !fullRepaint
      {
        ghost var (w, h) := Sized(fb.w, fb.h, script[i]);
        ghost var env := if w >= 0 && h >= 0 then world(i, term, w, h, fullRepaint || w != fb.w || h != fb.h) else term;
        var completed, drew;
        exit, completed, drew := Frame(script[i], env);
        if completed {
          done := done + 1;
        }
        if exit != Running {
          return;
        }
      }
    }
  }

  /** A frame drawn or skipped; drawn bytes count as one write unless there were none. */
  function WithOutput(was: LoopStats, drew: bool, bytes: seq<nat>): LoopStats {
    if !drew then was.(skipped := was.skipped + 1)
    else was.(drawn := was.drawn + 1, writes := was.writes + (if bytes == [] then 0 else 1), bytesWritten := was.bytesWritten + |bytes|)
  }

  /** The size the buffers have once an iteration has taken its resize request. */
  function Sized(w: nat, h: nat, input: FrameInput): (int, int) {
    if input.resize.Some? then Wanted(w, h, input.resize.value) else (w, h)
  }

  /** The terminal an iteration finds has the buffer's size. */
  ghost predicate Fits(w: nat, h: nat, input: FrameInput, env: Term) {
    var (w', h') := Sized(w, h, input);
    w' >= 0 && h' >= 0 ==> env.w == w' && |env.screen| == w' * h'
  }

  /** And, unless all is to be repainted anyway, the contents the last iteration left. */
  ghost predicate LeftAlone(w: nat, h: nat, full: bool, term: Term, input: FrameInput, env: Term) {
    Sized(w, h, input) == (w, h) && !full ==> env.screen == term.screen
  }

  /** A drawn frame: for drawable cells the terminal shows it exactly when all was repainted or every cell was
      drawn anew or already right; undrawable ones a sane terminal never shows. */
  ghost predicate Drawn(mode: ColorMode, p: Palette, w: nat, front: seq<Cell>, back: seq<Cell>, full: bool, env: Term, t: Term) {
    && (AllDrawable(back) ==> (Shows(mode, p, t, w, back) <==> full || Renewed(mode, p, front, back, env)))
    && (Sane(env) && Shows(mode, p, t, w, back) ==> AllDrawable(back))
  }

  /** What the world does to the terminal before iteration `i`; the flag says that all is to be repainted. */
  type World = (nat, Term, nat, nat, bool) -> Term

  ghost predicate Shaped(world: World) {
    forall i: nat, t: Term, w: nat, h: nat, changed: bool ::
      var env := world(i, t, w, h, changed);
      env.w == w && |env.screen| == w * h
  }

  /** Contents change only when they are to be repainted anyway. */
  ghost predicate Quiet(world: World) {
    forall i: nat, t: Term, w: nat, h: nat :: |t.screen| == w * h ==> world(i, t, w, h, false).screen == t.screen
  }

  // ---------------------------------------------------------------- resized away and back

  function OneCell(glyph: nat): Cell {
    Cell(glyph, 0, 0, 0)
  }

  function FillWith(glyph: nat): (nat, nat) -> seq<Cell> {
    (w: nat, h: nat) => seq(w * h, i => OneCell(glyph))
  }

  /** An iteration in which a window of one cell is measured and nothing else happens. */
  function MeasuredOnly(glyph: nat): FrameInput {
    FrameInput(false, false, Some(Some((1, 1))), 0, false, false, FillWith(glyph), true, false, false)
  }

  method FirstFrame(palette: Palette, ghost t: Term) returns (loop: EventLoop)
    requires GoodPalette(palette) && t.w == 1 && |t.screen| == 1
    ensures fresh(loop) && fresh(loop.fb) && fresh(loop.r) && loop.Valid() && !loop.dirty && !loop.fullRepaint
    ensures loop.cfg == LoopConfig(1, 1, 0) && loop.r.mode == TrueColor && loop.r.palette == palette
    ensures loop.fb.w == loop.fb.h == 1 && loop.fb.front == [OneCell(65)] && loop.stats.drawn == loop.stats.frames == 1
  {
    loop := new EventLoop(LoopConfig(1, 1, 0), TrueColor, palette, t);
    var exit, completed, drew := loop.Frame(MeasuredOnly(65), t);
    assert loop.fb.front == FillWith(65)(1, 1) == [OneCell(65)];
  }

  /** Between two measurements the window is resized away and back, and comes back with other contents.  The
      measured size is the old one, nothing is dirty, the iteration is skipped, and the terminal does not show
      the front buffer. */
  method ResizedAwayAndBack(palette: Palette, ghost t: Term) returns (loop: EventLoop)
    requires GoodPalette(palette) && t.w == 1 && |t.screen| == 1
    ensures fresh(loop) && loop.Valid() && loop.stats.drawn == loop.stats.skipped == 1 && !loop.fullRepaint
    ensures !Shows(loop.r.mode, loop.r.palette, loop.term, loop.fb.w, loop.fb.front)
  {
    loop := FirstFrame(palette, t);
    ghost var other := t.(screen := [Display(TrueColor, palette, OneCell(66))]);
    assert other.screen[0] != Display(TrueColor, palette, OneCell(65));
    var exit, completed, drew := loop.Frame(MeasuredOnly(65), other);
  }
}
