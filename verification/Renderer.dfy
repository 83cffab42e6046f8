/** The differential renderer of `renderer.cpp`: a cell diff compiled into terminal bytes, eliding unchanged
    cells, pen changes and cursor moves.  The ghost fields `start` and `term` are the terminal before the
    frame and after the bytes produced so far. */
module Renderers {
  import opened Bits
  import opened Utf8
  import opened Terminals

  datatype Cell = Cell(glyph: nat, fg: nat, bg: nat, attrs: nat)

  datatype ColorMode = TrueColor | Cube256 | Ansi16

  /** The two quantisers; only their ranges matter here. */
  datatype Palette = Palette(cube: nat -> nat, ansi: nat -> nat)

  ghost predicate GoodPalette(p: Palette) {
    forall c :: p.cube(c) < 256 && p.ansi(c) < 16
  }

  const MAX_BYTES_PER_CELL: nat := 80
  const FRAME_OVERHEAD: nat := 32
  const MAX_SIDE: nat := 0x40_0000

  // ---------------------------------------------------------------- what a cell looks like

  function Resolve(mode: ColorMode, p: Palette, c: nat): nat {
    match mode
    case TrueColor => c
    case Cube256 => p.cube(c)
    case Ansi16 => p.ansi(c)
  }

  function ColorOf(mode: ColorMode, code: nat): Color {
    match mode
    case TrueColor => Direct(code / 65536 % 256, code / 256 % 256, code % 256)
    case Cube256 => Indexed(code)
    case Ansi16 => Indexed(code)
  }

  predicate Bit(attrs: nat, mask: nat)
    requires mask > 0
  {
    attrs / mask % 2 == 1
  }

  function PenOf(mode: ColorMode, attrs: nat, fg: nat, bg: nat): Pen {
    Pen(ColorOf(mode, fg), ColorOf(mode, bg), Bit(attrs, 1), Bit(attrs, 2), Bit(attrs, 4), Bit(attrs, 8))
  }

  /** A never-drawn cell shows a space, an unencodable glyph the replacement character. */
  function GlyphOf(glyph: nat): nat {
    if glyph == 0 then 0x20 else if IsScalar(glyph) then glyph else REPLACEMENT
  }

  function Display(mode: ColorMode, p: Palette, c: Cell): Shown {
    Shown(GlyphOf(c.glyph), PenOf(mode, c.attrs, Resolve(mode, p, c.fg), Resolve(mode, p, c.bg)))
  }

  /** How a cell looks, from its four fields: a colour is three bytes shown as they are, or quantised into
      the palette of the mode; `attrs` is four flags under `16 * more`. */
  lemma ShownAs(p: Palette, c: Cell, r: nat, g: nat, b: nat, more: nat, bold: bool, dim: bool, under: bool, reverse: bool)
    requires r < 256 && g < 256 && b < 256
    requires c.attrs == 16 * more + (if bold then 1 else 0) + (if dim then 2 else 0) + (if under then 4 else 0) + (if reverse then 8 else 0)
    ensures forall mode ::
              var s := Display(mode, p, c);
              && s.glyph == (if c.glyph == 0 then 32 else if c.glyph < 0xD800 || 0xE000 <= c.glyph < 0x11_0000 then c.glyph else 0xFFFD)
              && s.pen.bold == bold && s.pen.dim == dim && s.pen.underline == under && s.pen.reverse == reverse
    ensures c.fg == 65536 * r + 256 * g + b ==> Display(TrueColor, p, c).pen.fg == Direct(r, g, b)
    ensures c.bg == 65536 * r + 256 * g + b ==> Display(TrueColor, p, c).pen.bg == Direct(r, g, b)
    ensures Display(Cube256, p, c).pen.fg == Indexed(p.cube(c.fg)) && Display(Cube256, p, c).pen.bg == Indexed(p.cube(c.bg))
    ensures Display(Ansi16, p, c).pen.fg == Indexed(p.ansi(c.fg)) && Display(Ansi16, p, c).pen.bg == Indexed(p.ansi(c.bg))
  {
    FourFlags(c.attrs, more, bold, dim, under, reverse);
    ColorBytes(65536 * r + 256 * g + b, r, g, b);
  }

  lemma ColorBytes(code: nat, r: nat, g: nat, b: nat)
    requires r < 256 && g < 256 && b < 256 && code == 65536 * r + 256 * g + b
    ensures code / 65536 % 256 == r && code / 256 % 256 == g && code % 256 == b
  {
    assert code / 65536 == r && code / 256 == 256 * r + g;
  }

  lemma FourFlags(attrs: nat, more: nat, b1: bool, b2: bool, b4: bool, b8: bool)
    requires attrs == 16 * more + (if b1 then 1 else 0) + (if b2 then 2 else 0) + (if b4 then 4 else 0) + (if b8 then 8 else 0)
    ensures Bit(attrs, 1) == b1 && Bit(attrs, 2) == b2 && Bit(attrs, 4) == b4 && Bit(attrs, 8) == b8
  {
    var d1, d2, d4, d8 := if b1 then 1 else 0, if b2 then 1 else 0, if b4 then 1 else 0, if b8 then 1 else 0;
    FlagAt(attrs, 1, 8 * more + d2 + 2 * d4 + 4 * d8, d1, 0);
    FlagAt(attrs, 2, 4 * more + d4 + 2 * d8, d2, d1);
    FlagAt(attrs, 4, 2 * more + d8, d4, d1 + 2 * d2);
    FlagAt(attrs, 8, more, d8, d1 + 2 * d2 + 4 * d4);
  }

  lemma FlagAt(attrs: nat, mask: nat, above: nat, d: nat, below: nat)
    requires below < mask && d < 2 && attrs == (2 * above + d) * mask + below
    ensures Bit(attrs, mask) <==> d == 1
  {
    DivModUnique(attrs, mask, 2 * above + d, below);
    DivModUnique(2 * above + d, 2, above, d);
  }

  /** Cells hold one-column characters, not control codes. */
  predicate Drawable(c: Cell) {
    Printable(GlyphOf(c.glyph))
  }

  // ---------------------------------------------------------------- renditions

  function ColorParams(mode: ColorMode, foreground: bool, code: nat): seq<nat> {
    var base := if foreground then 38 else 48;
    match mode
    case TrueColor => [base, 2, code / 65536 % 256, code / 256 % 256, code % 256]
    case Cube256 => [base, 5, code]
    case Ansi16 => if code < 8 then [base - 8 + code] else [(if foreground then 90 else 100) + (code - 8)]
  }

  lemma ColorParamsSet(mode: ColorMode, p: Pen, foreground: bool, code: nat)
    requires mode.Ansi16? ==> code < 16
    ensures Sgr(p, ColorParams(mode, foreground, code)) == WithColor(p, foreground, ColorOf(mode, code))
  {
  }

  function AttrCodes(attrs: nat): seq<nat> {
    Codes(Bit(attrs, 1), Bit(attrs, 2), Bit(attrs, 4), Bit(attrs, 8))
  }

  function Maybe(on: bool, n: nat): seq<nat> {
    if on then [n] else []
  }

  lemma SgrMaybe(p: Pen, on: bool, n: nat, ps: seq<nat>)
    requires n < 30
    ensures Sgr(p, Maybe(on, n) + ps) == Sgr(if on then Sgr1(p, n) else p, ps)
  {
    if on {
      assert ([n] + ps)[1..] == ps;
    } else {
      assert Maybe(on, n) + ps == ps;
    }
  }

  function Codes(b1: bool, b2: bool, b4: bool, b8: bool): seq<nat> {
    Maybe(b1, 1) + (Maybe(b2, 2) + (Maybe(b4, 4) + (Maybe(b8, 7) + [])))
  }

  lemma CodesSet(b1: bool, b2: bool, b4: bool, b8: bool)
    ensures Sgr(PLAIN, Codes(b1, b2, b4, b8)) == Pen(Default, Default, b1, b2, b4, b8)
  {
    var d: seq<nat> := Maybe(b8, 7) + [];
    var c := Maybe(b4, 4) + d;
    var b := Maybe(b2, 2) + c;
    var p1 := Pen(Default, Default, b1, false, false, false);
    var p2 := Pen(Default, Default, b1, b2, false, false);
    var p4 := Pen(Default, Default, b1, b2, b4, false);
    calc {
      Sgr(PLAIN, Codes(b1, b2, b4, b8));
      { SgrMaybe(PLAIN, b1, 1, b); }
      Sgr(p1, b);
      { SgrMaybe(p1, b2, 2, c); }
      Sgr(p2, c);
      { SgrMaybe(p2, b4, 4, d); }
      Sgr(p4, d);
      { SgrMaybe(p4, b8, 7, []); }
      Pen(Default, Default, b1, b2, b4, b8);
    }
  }

  lemma AttrCodesSet(attrs: nat)
    ensures var codes := AttrCodes(attrs);
            Sgr(PLAIN, if codes == [] then [0] else codes) ==
            Pen(Default, Default, Bit(attrs, 1), Bit(attrs, 2), Bit(attrs, 4), Bit(attrs, 8))
  {
    CodesSet(Bit(attrs, 1), Bit(attrs, 2), Bit(attrs, 4), Bit(attrs, 8));
    if AttrCodes(attrs) == [] {
      assert Sgr(PLAIN, [0]) == PLAIN;
    }
  }

  /** The do-while of `put_uint`: digits least significant first, then reversed. */
  method DigitsOf(v: nat) returns (d: seq<nat>)
    ensures d == Digits(v)
  {
    var tmp: seq<nat>, rest: nat := [48 + v % 10], v / 10;
    assert Backwards(tmp) == [48 + v % 10];
    while rest != 0
      invariant Digits(v) == Leading(rest) + Backwards(tmp)
      decreases rest
    {
      LeadingStep(rest, tmp);
      tmp := tmp + [48 + rest % 10];
      rest := rest / 10;
    }
    d := Reversed(tmp);
  }

  method Reversed(tmp: seq<nat>) returns (d: seq<nat>)
    ensures d == Backwards(tmp)
  {
    d := [];
    var n := |tmp|;
    assert tmp[..n] == tmp;
    while n > 0
      invariant 0 <= n <= |tmp| && d + Backwards(tmp[..n]) == Backwards(tmp)
    {
      n := n - 1;
      assert tmp[..n + 1][..n] == tmp[..n];
      d := d + [tmp[n]];
    }
  }

  function Leading(v: nat): seq<nat> {
    if v == 0 then [] else Digits(v)
  }

  lemma LeadingStep(v: nat, tmp: seq<nat>)
    requires v != 0
    ensures Leading(v) + Backwards(tmp) == Leading(v / 10) + Backwards(tmp + [48 + v % 10])
  {
    var t := tmp + [48 + v % 10];
    assert t[..|tmp|] == tmp && t[|tmp|] == 48 + v % 10;
    assert Leading(v) == Leading(v / 10) + [48 + v % 10];
    assert Backwards(t) == [48 + v % 10] + Backwards(tmp);
  }

  function Backwards(s: seq<nat>): seq<nat> {
    if s == [] then [] else [s[|s| - 1]] + Backwards(s[..|s| - 1])
  }

  // ---------------------------------------------------------------- lengths

  lemma {:induction false} JoinLength(ps: seq<nat>, k: nat)
    requires ps != [] && k > 0 && forall i :: 0 <= i < |ps| ==> ps[i] < Pow10(k)
    ensures |Join(ps)| <= |ps| * (k + 1) - 1
    decreases |ps|
  {
    var n := |ps| - 1;
    DigitsLength(ps[n], k);
    if n > 0 {
      JoinLength(ps[..n], k);
      OneMore(n, k, |Join(ps[..n])|, |Digits(ps[n])|);
    }
  }

  lemma OneMore(n: nat, k: nat, joined: nat, digits: nat)
    requires joined <= n * (k + 1) - 1 && digits <= k
    ensures joined + 1 + digits <= (n + 1) * (k + 1) - 1
  {
    assert (n + 1) * (k + 1) == n * (k + 1) + (k + 1);
  }

  lemma ColorLength(mode: ColorMode, foreground: bool, code: nat)
    requires (mode.Cube256? ==> code < 256) && (mode.Ansi16? ==> code < 16)
    ensures |CsiBytes(ColorParams(mode, foreground, code), LOWER_M)| <= 22
  {
    assert Pow10(3) == 1000;
    JoinLength(ColorParams(mode, foreground, code), 3);
  }

  lemma AttrLength(attrs: nat)
    ensures |CsiBytes(AttrCodes(attrs), LOWER_M)| <= 10
  {
    assert Pow10(1) == 10;
    if AttrCodes(attrs) != [] {
      JoinLength(AttrCodes(attrs), 1);
    }
  }

  lemma MoveLength(x: nat, y: nat)
    requires x < MAX_SIDE && y < MAX_SIDE
    ensures |CsiBytes([y + 1, x + 1], UPPER_H)| <= 18
  {
    assert Pow10(3) == 1000 && Pow10(7) == 10_000_000;
    JoinLength([y + 1, x + 1], 7);
  }

  /** Numbers with separators between them. */
  method JoinOf(ps: seq<nat>) returns (body: seq<nat>)
    ensures body == Join(ps)
  {
    body := [];
    for i := 0 to |ps|
      invariant body == Join(ps[..i])
    {
      if i > 0 {
        body := body + [SEMI];
      }
      var d := DigitsOf(ps[i]);
      body := body + d;
      assert ps[..i + 1][..i] == ps[..i];
    }
    assert ps[..|ps|] == ps;
  }

  class Renderer {
    const mode: ColorMode
    const palette: Palette
    var out: seq<nat>
    var penFg: nat
    var penBg: nat
    var penAttrs: nat
    var penValid: bool
    var curX: nat
    var curY: nat
    var curValid: bool
    var emitted: nat
    ghost var start: Term
    ghost var term: Term
    ghost var clean: bool

    /** While only drawable cells go out, the bytes so far take the terminal from `start` to `term`. */
    ghost predicate Follows()
      reads this
    {
      clean ==> Brings(start, out, term)
    }

    /** And then the tracked pen and cursor, where trusted, are the terminal's. */
    ghost predicate Tracks()
      reads this
    {
      && Follows()
      && (clean && penValid ==> term.pen == PenOf(mode, penAttrs, penFg, penBg))
      && (clean && curValid ==> term.x == curX && term.y == curY)
    }

    constructor (mode: ColorMode, palette: Palette)
      ensures this.mode == mode && this.palette == palette
    {
      this.mode, this.palette := mode, palette;
      out, penFg, penBg, penAttrs, penValid, curX, curY, curValid, emitted := [], 0, 0, 0, false, 0, 0, false, 0;
    }

    /** Appends one control sequence. */
    method PutCsi(ps: seq<nat>, final: nat)
      requires Follows() && (final == LOWER_M || final == UPPER_H)
      modifies this`out, this`term
      ensures out == old(out) + CsiBytes(ps, final) && Follows()
      ensures term == Control(old(term), if ps == [] then [0] else ps, final)
    {
      var body := JoinOf(ps);
      if clean {
        CsiBrings(term, ps, final);
        BringsThen(start, out, term, CsiBytes(ps, final), Control(term, if ps == [] then [0] else ps, final));
      }
      out := out + ([ESC, BRACKET] + body + [final]);
      term := Control(term, if ps == [] then [0] else ps, final);
    }

    method MoveTo(x: nat, y: nat)
      requires Tracks() && x < MAX_SIDE && y < MAX_SIDE
      modifies this`out, this`term, this`curX, this`curY, this`curValid
      ensures Tracks() && curValid && curX == x && curY == y
      ensures clean ==> term == old(term).(x := x, y := y)
      ensures out == old(out) + (if old(curValid) && old(curX) == x && old(curY) == y then [] else CsiBytes([y + 1, x + 1], UPPER_H))
      ensures |out| <= |old(out)| + 18
    {
      if curValid && curX == x && curY == y {
        return;
      }
      MoveLength(x, y);
      PutCsi([y + 1, x + 1], UPPER_H);
      curX, curY, curValid := x, y, true;
    }

    method EmitColor(foreground: bool, code: nat)
      requires Follows()
      requires (mode.Cube256? ==> code < 256) && (mode.Ansi16? ==> code < 16)
      modifies this`out, this`term
      ensures Follows() && old(out) <= out && |out| <= |old(out)| + 22
      ensures term == old(term).(pen := WithColor(old(term).pen, foreground, ColorOf(mode, code)))
    {
      ColorLength(mode, foreground, code);
      ColorParamsSet(mode, term.pen, foreground, code);
      PutCsi(ColorParams(mode, foreground, code), LOWER_M);
    }

    /** Attributes only ever change through a full reset. */
    method EmitAttrs(attrs: nat)
      requires Follows()
      modifies this`out, this`term, this`penValid, this`penAttrs
      ensures Follows() && old(out) <= out && |out| <= |old(out)| + 14
      ensures !penValid && penAttrs == attrs
      ensures term == old(term).(pen := Pen(Default, Default, Bit(attrs, 1), Bit(attrs, 2), Bit(attrs, 4), Bit(attrs, 8)))
    {
      ResetPen();
      penValid := false;
      AttrLength(attrs);
      AttrCodesSet(attrs);
      if attrs != 0 {
        PutCsi(AttrCodes(attrs), LOWER_M);
      }
      penAttrs := attrs;
    }

    method ResetPen()
      requires Follows()
      modifies this`out, this`term
      ensures Follows() && old(out) <= out && |out| <= |old(out)| + 4
      ensures term == old(term).(pen := Pen(Default, Default, false, false, false, false))
    {
      assert Pow10(1) == 10;
      JoinLength([0], 1);
      PutCsi([0], LOWER_M);
    }

    method EmitPen(c: Cell)
      requires Tracks() && GoodPalette(palette)
      modifies this`out, this`term, this`penValid, this`penAttrs, this`penFg, this`penBg
      ensures Tracks() && penValid && old(out) <= out && |out| <= |old(out)| + 58
      ensures penAttrs == c.attrs && penFg == Resolve(mode, palette, c.fg) && penBg == Resolve(mode, palette, c.bg)
      ensures old(penValid) && penAttrs == old(penAttrs) && penFg == old(penFg) && penBg == old(penBg) ==> out == old(out)
      ensures clean ==> term == old(term).(pen := Display(mode, palette, c).pen)
    {
      if !penValid || c.attrs != penAttrs {
        EmitAttrs(c.attrs);
      }
      var fg, bg := Resolve(mode, palette, c.fg), Resolve(mode, palette, c.bg);
      EmitForeground(fg);
      EmitBackground(bg);
      penValid := true;
    }

    /** Emitted or elided, the colour is the terminal's afterwards. */
    method EmitForeground(fg: nat)
      requires Follows() && (clean && penValid ==> term.pen.fg == ColorOf(mode, penFg))
      requires (mode.Cube256? ==> fg < 256) && (mode.Ansi16? ==> fg < 16)
      modifies this`out, this`term, this`penFg
      ensures Follows() && penFg == fg && old(out) <= out && |out| <= |old(out)| + 22
      ensures penValid && fg == old(penFg) ==> out == old(out)
      ensures clean ==> term == old(term).(pen := WithColor(old(term).pen, true, ColorOf(mode, fg)))
    {
      if !penValid || fg != penFg {
        EmitColor(true, fg);
        penFg := fg;
      }
    }

    method EmitBackground(bg: nat)
      requires Follows() && (clean && penValid ==> term.pen.bg == ColorOf(mode, penBg))
      requires (mode.Cube256? ==> bg < 256) && (mode.Ansi16? ==> bg < 16)
      modifies this`out, this`term, this`penBg
      ensures Follows() && penBg == bg && old(out) <= out && |out| <= |old(out)| + 22
      ensures penValid && bg == old(penBg) ==> out == old(out)
      ensures clean ==> term == old(term).(pen := WithColor(old(term).pen, false, ColorOf(mode, bg)))
    {
      if !penValid || bg != penBg {
        EmitColor(false, bg);
        penBg := bg;
      }
    }

    /** Appends one character, which lands under the cursor. */
    method PutGlyph(cp: nat)
      requires Follows() && (clean ==> IsScalar(cp) && Printable(cp))
      modifies this`out, this`term
      ensures Follows() && out == old(out) + Encode(cp) && term == Put(old(term), cp)
    {
      if clean {
        GlyphBrings(term, cp);
        BringsThen(start, out, term, Encode(cp), Put(term, cp));
      }
      out := out + Encode(cp);
      term := Put(term, cp);
    }

    /** Brings cursor and pen to where a cell needs them; costs nothing when they are there. */
    method Aim(x: nat, y: nat, c: Cell)
      requires Tracks() && GoodPalette(palette) && x < MAX_SIDE && y < MAX_SIDE
      modifies this`out, this`term, this`penValid, this`penAttrs, this`penFg, this`penBg, this`curX, this`curY, this`curValid
      ensures Tracks() && curValid && curX == x && curY == y && old(out) <= out && |out| <= |old(out)| + 76
      ensures clean ==> term == old(term).(x := x, y := y, pen := Display(mode, palette, c).pen)
      ensures penValid && penAttrs == c.attrs && penFg == Resolve(mode, palette, c.fg) && penBg == Resolve(mode, palette, c.bg)
      ensures old(curValid) && old(curX) == x && old(curY) == y && old(penValid) &&
              penAttrs == old(penAttrs) && penFg == old(penFg) && penBg == old(penBg) ==>
                out == old(out)
    {
      MoveTo(x, y);
      EmitPen(c);
    }

    /** Draws one cell where it belongs. */
    method EmitCell(w: nat, x: nat, y: nat, ghost at: nat, c: Cell)
      requires Tracks() && GoodPalette(palette) && x < MAX_SIDE && y < MAX_SIDE
      requires clean ==> Drawable(c) && x < w == term.w && at == y * w + x < |term.screen|
      modifies this`out, this`term, this`penValid, this`penAttrs, this`penFg, this`penBg, this`curX, this`curY, this`curValid, this`emitted
      ensures Tracks() && old(out) < out && |out| <= |old(out)| + MAX_BYTES_PER_CELL && emitted == old(emitted) + 1
      ensures clean ==> term.screen == old(term).screen[at := Display(mode, palette, c)] && term.w == w
      ensures curX == x + 1 && curY == y && (curValid <==> x + 1 < w)
      ensures penValid && penAttrs == c.attrs && penFg == Resolve(mode, palette, c.fg) && penBg == Resolve(mode, palette, c.bg)
      ensures old(curValid) && old(curX) == x && old(curY) == y && old(penValid) &&
              penAttrs == old(penAttrs) && penFg == old(penFg) && penBg == old(penBg) ==>
                out == old(out) + Encode(GlyphOf(c.glyph))
    {
      Aim(x, y, c);
      PutGlyph(GlyphOf(c.glyph));
      emitted := emitted + 1;
      curX := curX + 1;
      if curX >= w {
        curValid := false;
      }
    }

    /** Diffs `front` against `back`.  Fed to any terminal that shows the front buffer (any terminal at all on
        a full repaint), whatever its pen and cursor, the bytes leave it showing the back buffer if the cells
        are drawable, and only if they are: no terminal with printable characters on its screen comes to show
        an undrawable cell.  On a terminal showing anything else, drawable cells that changed are drawn and no
        other cell is touched.  Whatever the cells, an idle frame produces no bytes and no frame outgrows what
        `reserve` set aside. */
    method Render(w: nat, h: nat, front: seq<Cell>, back: seq<Cell>, full: bool, ghost t: Term)
      requires GoodPalette(palette) && w <= MAX_SIDE && h <= MAX_SIDE
      requires |front| == |back| == w * h && t.w == w && |t.screen| == w * h
      modifies this
      ensures AllDrawable(back) ==> Overwritten(mode, palette, front, back, full, t, Feed(t, Ground, out))
      ensures AllDrawable(back) ==>
                (Shows(mode, palette, Feed(t, Ground, out), w, back) <==> full || Renewed(mode, palette, front, back, t))
      ensures Sane(t) && (full || Shows(mode, palette, t, w, front)) ==>
                (Shows(mode, palette, Feed(t, Ground, out), w, back) <==> AllDrawable(back))
      ensures AllDrawable(front) && Shows(mode, palette, t, w, front) ==>
                (Shows(mode, palette, Feed(t, Ground, out), w, back) <==> AllDrawable(back))
      ensures |out| <= MAX_BYTES_PER_CELL * (w * h) + FRAME_OVERHEAD
      ensures !full && front == back ==> out == []
      ensures emitted <= w * h && (full ==> emitted == w * h)
    {
      out, penValid, curValid, emitted := [], false, false, 0;
      start, term, clean := t, t, AllDrawable(back);
      BringsNothing(t);
      for y := 0 to h
        invariant clean == AllDrawable(back)
        invariant y * w <= |back| && Frame(w, front, back, full, t, y * w)
      {
        RowFits(w, h, y);
        RenderRow(w, y, y * w, front, back, full, t);
        assert (y + 1) * w == y * w + w;
      }
      assert h * w == w * h;
      if out != [] {
        assert Pow10(1) == 10;
        JoinLength([0], 1);
        PutCsi([0], LOWER_M);
      }
      if clean {
        BringsEnd(t, out, term);
      }
      WhatIsShown(mode, palette, w, front, back, full, t, out);
    }

    /** The inner loop: one row, whose first cell is `base`. */
    method RenderRow(w: nat, y: nat, base: nat, front: seq<Cell>, back: seq<Cell>, full: bool, ghost t: Term)
      requires GoodPalette(palette) && w <= MAX_SIDE && y < MAX_SIDE && base == y * w && base + w <= |back|
      requires |front| == |back| == |t.screen| && clean == AllDrawable(back)
      requires Frame(w, front, back, full, t, base)
      modifies this
      ensures clean == old(clean) && Frame(w, front, back, full, t, base + w)
    {
      for x := 0 to w
        invariant clean == old(clean) && Frame(w, front, back, full, t, base + x)
      {
        RenderCell(w, x, y, base + x, front, back, full, t);
      }
    }

    method RenderCell(w: nat, x: nat, y: nat, at: nat, front: seq<Cell>, back: seq<Cell>, full: bool, ghost t: Term)
      requires GoodPalette(palette) && x < w <= MAX_SIDE && y < MAX_SIDE && at == y * w + x < |back|
      requires |front| == |back| == |t.screen| && clean == AllDrawable(back)
      requires Frame(w, front, back, full, t, at)
      modifies this
      ensures clean == old(clean) && Frame(w, front, back, full, t, at + 1)
    {
      var now, before := back[at], front[at];
      if full || now != before {
        EmitCell(w, x, y, at, now);
      }
    }

    ghost predicate Painted(w: nat, front: seq<Cell>, back: seq<Cell>, full: bool, t: Term, n: nat)
      requires |front| == |back| == |t.screen| && n <= |back|
      reads this
    {
      && term.w == w && |term.screen| == |t.screen|
      && (forall i :: 0 <= i < n ==>
            term.screen[i] == if full || back[i] != front[i] then Display(mode, palette, back[i]) else t.screen[i])
      && (forall i :: n <= i < |back| ==> term.screen[i] == t.screen[i])
    }

    /** After the first `n` cells: those that changed show the back buffer, all others what they showed. */
    ghost predicate Frame(w: nat, front: seq<Cell>, back: seq<Cell>, full: bool, t: Term, n: nat)
      requires |front| == |back| == |t.screen| && n <= |back|
      reads this
    {
      && Tracks() && start == t
      && (clean ==> Painted(w, front, back, full, t, n))
      && |out| <= MAX_BYTES_PER_CELL * n
      && emitted <= n && (full ==> emitted == n)
      && (!full && front == back ==> out == [])
    }
  }

  ghost predicate Shows(mode: ColorMode, p: Palette, t: Term, w: nat, cells: seq<Cell>) {
    && t.w == w && |t.screen| == |cells|
    && forall i :: 0 <= i < |cells| ==> t.screen[i] == Display(mode, p, cells[i])
  }

  ghost predicate AllDrawable(cells: seq<Cell>) {
    forall i :: 0 <= i < |cells| ==> Drawable(cells[i])
  }

  /** What a frame does to a terminal: the cells that changed, or all of them, and nothing else. */
  ghost predicate Overwritten(mode: ColorMode, p: Palette, front: seq<Cell>, back: seq<Cell>, full: bool, t: Term, t': Term) {
    && |front| == |back| == |t.screen| == |t'.screen| && t'.w == t.w
    && forall i :: 0 <= i < |back| ==>
         t'.screen[i] == if full || back[i] != front[i] then Display(mode, p, back[i]) else t.screen[i]
  }

  /** Every cell is either drawn anew or already right on the screen. */
  ghost predicate Renewed(mode: ColorMode, p: Palette, front: seq<Cell>, back: seq<Cell>, t: Term) {
    && |front| == |back| == |t.screen|
    && forall i :: 0 <= i < |back| ==> back[i] != front[i] || t.screen[i] == Display(mode, p, front[i])
  }

  /** Whatever the bytes, a sane terminal comes to show drawable cells only. */
  lemma NeverUndrawable(mode: ColorMode, p: Palette, t: Term, bytes: seq<nat>, w: nat, cells: seq<Cell>)
    requires Sane(t)
    ensures Shows(mode, p, Feed(t, Ground, bytes), w, cells) ==> AllDrawable(cells)
  {
    FeedKeepsSane(t, Ground, bytes);
  }

  lemma WhatIsShown(mode: ColorMode, p: Palette, w: nat, front: seq<Cell>, back: seq<Cell>, full: bool, t: Term, bytes: seq<nat>)
    requires |front| == |back| == |t.screen| && t.w == w
    requires AllDrawable(back) ==> Overwritten(mode, p, front, back, full, t, Feed(t, Ground, bytes))
    ensures AllDrawable(back) ==>
              (Shows(mode, p, Feed(t, Ground, bytes), w, back) <==> full || Renewed(mode, p, front, back, t))
    ensures Sane(t) && (full || Shows(mode, p, t, w, front)) ==>
              (Shows(mode, p, Feed(t, Ground, bytes), w, back) <==> AllDrawable(back))
    ensures AllDrawable(front) && Shows(mode, p, t, w, front) ==> Sane(t)
  {
    if Sane(t) {
      NeverUndrawable(mode, p, t, bytes, w, back);
    }
  }

  lemma RowFits(w: nat, h: nat, y: nat)
    requires y < h
    ensures y * w + w <= w * h
  {
    MulGap(y, h, w);
    assert h * w == w * h;
  }

  /** What an undrawable glyph does instead, on this terminal, which acts on no control code but escape: nothing
      about it changes, its cursor included, although the renderer counts the cursor as moved on. */
  lemma ControlGlyphIsLost(t: Term, cp: nat)
    requires IsScalar(cp) && cp != 0 && !Printable(cp) && cp != ESC
    ensures GlyphOf(cp) == cp && Brings(t, Encode(cp), t)
  {
    forall rest: seq<nat>
      ensures Feed(t, Ground, Encode(cp) + rest) == Feed(t, Ground, rest)
    {
      var bytes := Encode(cp) + rest;
      DecodeEncode(bytes, 0, cp);
      assert bytes[|Encode(cp)|..] == rest;
    }
  }

  /** On this terminal, which knows only bracketed sequences, an escape is swallowed too, unless the next cell
      holds a bracket: then that one is not drawn either, and what follows is read as a control sequence. */
  lemma EscapeGlyphOpens(t: Term, rest: seq<nat>)
    ensures Feed(t, Ground, Encode(ESC) + (Encode(BRACKET) + rest)) == Feed(t, Csi([], 0), rest)
    ensures !(rest != [] && rest[0] == BRACKET) ==> Feed(t, Ground, Encode(ESC) + rest) == Feed(t, Ground, rest)
  {
    assert Encode(ESC) + (Encode(BRACKET) + rest) == [ESC, BRACKET] + rest;
    FeedOpen(t, rest);
    var bytes := Encode(ESC) + rest;
    assert bytes[0] == ESC && bytes[1..] == rest;
    DecodeEncode(bytes, 0, ESC);
  }
}
