/** A small terminal: the bytes heapviz writes, and what they put on the screen.

    It understands UTF-8 text, cursor addressing (CSI H) and the graphic renditions heapviz uses (CSI m).
    Printable characters are one column wide.  What happens to the cursor after the last column is left
    open: `wrap` is any policy. */
module Terminals {
  import opened Utf8

  const ESC: nat := 27
  const BRACKET: nat := 91
  const SEMI: nat := 59
  const UPPER_H: nat := 72
  const LOWER_M: nat := 109

  datatype Color = Default | Indexed(n: nat) | Direct(r: nat, g: nat, b: nat)

  datatype Pen = Pen(fg: Color, bg: Color, bold: bool, dim: bool, underline: bool, reverse: bool)

  const PLAIN := Pen(Default, Default, false, false, false, false)

  datatype Shown = Shown(glyph: nat, pen: Pen)

  datatype Term = Term(w: nat, h: nat, screen: seq<Shown>, pen: Pen, x: nat, y: nat, wrap: nat -> (nat, nat))

  /** Where the parser is inside a control sequence: finished parameters, and the one being read. */
  datatype Mode = Ground | Csi(params: seq<nat>, cur: nat)

  predicate Printable(cp: nat) {
    0x20 <= cp && !(0x7F <= cp <= 0x9F)
  }

  // ---------------------------------------------------------------- effects

  function Put(t: Term, cp: nat): Term {
    if !Printable(cp) then t
    else
      var at := t.y * t.w + t.x;
      var drawn := if t.x < t.w && at < |t.screen| then t.(screen := t.screen[at := Shown(cp, t.pen)]) else t;
      if t.x + 1 < t.w then drawn.(x := t.x + 1) else drawn.(x := t.wrap(t.y).0, y := t.wrap(t.y).1)
  }

  function Sgr(p: Pen, ps: seq<nat>): Pen
    decreases |ps|
  {
    if ps == [] then p
    else
      var n := ps[0];
      if n == 38 || n == 48 then
        if |ps| >= 5 && ps[1] == 2 then
          Sgr(WithColor(p, n == 38, Direct(ps[2], ps[3], ps[4])), ps[5..])
        else if |ps| >= 3 && ps[1] == 5 then
          Sgr(WithColor(p, n == 38, Indexed(ps[2])), ps[3..])
        else p
      else Sgr(Sgr1(p, n), ps[1..])
  }

  function Sgr1(p: Pen, n: nat): Pen {
    if n == 0 then PLAIN
    else if n == 1 then p.(bold := true)
    else if n == 2 then p.(dim := true)
    else if n == 4 then p.(underline := true)
    else if n == 7 then p.(reverse := true)
    else if 30 <= n <= 37 then p.(fg := Indexed(n - 30))
    else if 40 <= n <= 47 then p.(bg := Indexed(n - 40))
    else if 90 <= n <= 97 then p.(fg := Indexed(n - 90 + 8))
    else if 100 <= n <= 107 then p.(bg := Indexed(n - 100 + 8))
    else p
  }

  function WithColor(p: Pen, foreground: bool, c: Color): Pen {
    if foreground then p.(fg := c) else p.(bg := c)
  }

  /** Executes a finished control sequence; coordinates are 1-based and default to 1. */
  function Control(t: Term, ps: seq<nat>, final: nat): Term {
    if final == LOWER_M then t.(pen := Sgr(t.pen, ps))
    else if final == UPPER_H && |ps| == 2 then
      t.(y := if ps[0] == 0 then 0 else ps[0] - 1, x := if ps[1] == 0 then 0 else ps[1] - 1)
    else t
  }

  /** Reads bytes. */
  function Feed(t: Term, mode: Mode, bytes: seq<nat>): Term
    decreases |bytes|
  {
    if bytes == [] then t
    else
      var b := bytes[0];
      match mode
      case Csi(ps, cur) =>
        if 48 <= b <= 57 then Feed(t, Csi(ps, 10 * cur + (b - 48)), bytes[1..])
        else if b == SEMI then Feed(t, Csi(ps + [cur], 0), bytes[1..])
        else Feed(Control(t, ps + [cur], b), Ground, bytes[1..])
      case Ground =>
        if b == ESC && |bytes| > 1 && bytes[1] == BRACKET then Feed(t, Csi([], 0), bytes[2..])
        else
          var (cp, n) := Decode(bytes, 0);
          if 1 <= n <= |bytes| then Feed(Put(t, cp), Ground, bytes[n..]) else t
  }

  /** Only printable characters are on the screen. */
  ghost predicate Sane(t: Term) {
    forall i :: 0 <= i < |t.screen| ==> Printable(t.screen[i].glyph)
  }

  /** No bytes whatever put anything else there. */
  lemma {:induction false} FeedKeepsSane(t: Term, mode: Mode, bytes: seq<nat>)
    requires Sane(t)
    ensures Sane(Feed(t, mode, bytes))
    decreases |bytes|
  {
    if bytes != [] {
      var b := bytes[0];
      match mode
      case Csi(ps, cur) =>
        if 48 <= b <= 57 {
          FeedKeepsSane(t, Csi(ps, 10 * cur + (b - 48)), bytes[1..]);
        } else if b == SEMI {
          FeedKeepsSane(t, Csi(ps + [cur], 0), bytes[1..]);
        } else {
          FeedKeepsSane(Control(t, ps + [cur], b), Ground, bytes[1..]);
        }
      case Ground =>
        if b == ESC && |bytes| > 1 && bytes[1] == BRACKET {
          FeedKeepsSane(t, Csi([], 0), bytes[2..]);
        } else {
          var (cp, n) := Decode(bytes, 0);
          if 1 <= n <= |bytes| {
            FeedKeepsSane(Put(t, cp), Ground, bytes[n..]);
          }
        }
    }
  }

  // ---------------------------------------------------------------- encodings of commands

  /** `put_uint`: decimal digits. */
  function Digits(v: nat): (d: seq<nat>)
    ensures |d| > 0
  {
    if v < 10 then [48 + v] else Digits(v / 10) + [48 + v % 10]
  }

  function Join(ps: seq<nat>): seq<nat> {
    if ps == [] then []
    else if |ps| == 1 then Digits(ps[0])
    else Join(ps[..|ps| - 1]) + [SEMI] + Digits(ps[|ps| - 1])
  }

  function CsiBytes(ps: seq<nat>, final: nat): seq<nat> {
    [ESC, BRACKET] + Join(ps) + [final]
  }

  // ---------------------------------------------------------------- reading back what was encoded

  /** Whatever follows, reading `bytes` turns `t` into `t'`. */
  ghost predicate Brings(t: Term, bytes: seq<nat>, t': Term) {
    forall rest :: Feed(t, Ground, bytes + rest) == Feed(t', Ground, rest)
  }

  lemma BringsThen(t: Term, x: seq<nat>, t': Term, y: seq<nat>, t'': Term)
    requires Brings(t, x, t') && Brings(t', y, t'')
    ensures Brings(t, x + y, t'')
  {
    forall rest
      ensures Feed(t, Ground, (x + y) + rest) == Feed(t'', Ground, rest)
    {
      assert (x + y) + rest == x + (y + rest);
    }
  }

  lemma BringsNothing(t: Term)
    ensures Brings(t, [], t)
  {
    forall rest: seq<nat>
      ensures Feed(t, Ground, [] + rest) == Feed(t, Ground, rest)
    {
      assert [] + rest == rest;
    }
  }

  /** A terminal that was brought somewhere is there once the bytes are read. */
  lemma BringsEnd(t: Term, bytes: seq<nat>, t': Term)
    requires Brings(t, bytes, t')
    ensures Feed(t, Ground, bytes) == t'
  {
    assert bytes + [] == bytes;
    assert Feed(t, Ground, bytes + []) == Feed(t', Ground, []);
  }

  lemma {:induction false} FeedDigits(t: Term, ps: seq<nat>, v: nat, rest: seq<nat>)
    ensures Feed(t, Csi(ps, 0), Digits(v) + rest) == Feed(t, Csi(ps, v), rest)
    decreases v
  {
    if v < 10 {
      assert ([48 + v] + rest)[1..] == rest;
    } else {
      var d := [48 + v % 10];
      assert Digits(v) + rest == Digits(v / 10) + (d + rest);
      FeedDigits(t, ps, v / 10, d + rest);
      assert (d + rest)[1..] == rest;
      assert 10 * (v / 10) + v % 10 == v;
    }
  }

  lemma FeedSemi(t: Term, ps: seq<nat>, cur: nat, rest: seq<nat>)
    ensures Feed(t, Csi(ps, cur), [SEMI] + rest) == Feed(t, Csi(ps + [cur], 0), rest)
  {
    assert ([SEMI] + rest)[1..] == rest;
  }

  lemma FeedFinal(t: Term, ps: seq<nat>, cur: nat, final: nat, rest: seq<nat>)
    requires final == LOWER_M || final == UPPER_H
    ensures Feed(t, Csi(ps, cur), [final] + rest) == Feed(Control(t, ps + [cur], final), Ground, rest)
  {
    assert ([final] + rest)[1..] == rest;
  }

  lemma FeedOpen(t: Term, rest: seq<nat>)
    ensures Feed(t, Ground, [ESC, BRACKET] + rest) == Feed(t, Csi([], 0), rest)
  {
    assert ([ESC, BRACKET] + rest)[2..] == rest;
  }

  lemma {:induction false} FeedJoin(t: Term, ps: seq<nat>, rest: seq<nat>)
    requires ps != []
    ensures Feed(t, Csi([], 0), Join(ps) + rest) == Feed(t, Csi(ps[..|ps| - 1], ps[|ps| - 1]), rest)
    decreases |ps|
  {
    var n := |ps| - 1;
    if n == 0 {
      FeedDigits(t, [], ps[0], rest);
      assert ps[..0] == [];
    } else {
      var init, last := ps[..n], Digits(ps[n]) + rest;
      calc {
        Feed(t, Csi([], 0), Join(ps) + rest);
        { assert Join(ps) + rest == Join(init) + ([SEMI] + last); }
        Feed(t, Csi([], 0), Join(init) + ([SEMI] + last));
        { FeedJoin(t, init, [SEMI] + last); }
        Feed(t, Csi(init[..n - 1], init[n - 1]), [SEMI] + last);
        { FeedSemi(t, init[..n - 1], init[n - 1], last); assert init[..n - 1] + [init[n - 1]] == init; }
        Feed(t, Csi(init, 0), last);
        { FeedDigits(t, init, ps[n], rest); }
        Feed(t, Csi(init, ps[n]), rest);
      }
    }
  }

  lemma FeedCsi(t: Term, ps: seq<nat>, final: nat, rest: seq<nat>)
    requires final == LOWER_M || final == UPPER_H
    ensures Feed(t, Ground, CsiBytes(ps, final) + rest) == Feed(Control(t, if ps == [] then [0] else ps, final), Ground, rest)
  {
    var tail := [final] + rest;
    assert CsiBytes(ps, final) + rest == [ESC, BRACKET] + (Join(ps) + tail);
    FeedOpen(t, Join(ps) + tail);
    if ps == [] {
      assert Join(ps) + tail == tail;
      FeedFinal(t, [], 0, final, rest);
      assert ps + [0] == [0];
    } else {
      FeedParams(t, ps, final, rest);
    }
  }

  lemma FeedParams(t: Term, ps: seq<nat>, final: nat, rest: seq<nat>)
    requires ps != [] && (final == LOWER_M || final == UPPER_H)
    ensures Feed(t, Csi([], 0), Join(ps) + ([final] + rest)) == Feed(Control(t, ps, final), Ground, rest)
  {
    var n := |ps| - 1;
    FeedJoin(t, ps, [final] + rest);
    FeedFinal(t, ps[..n], ps[n], final, rest);
    assert ps[..n] + [ps[n]] == ps;
  }

  /** A control sequence does what its parameters say; none at all means a single zero. */
  lemma CsiBrings(t: Term, ps: seq<nat>, final: nat)
    requires final == LOWER_M || final == UPPER_H
    ensures Brings(t, CsiBytes(ps, final), Control(t, if ps == [] then [0] else ps, final))
  {
    forall rest: seq<nat>
      ensures Feed(t, Ground, CsiBytes(ps, final) + rest) == Feed(Control(t, if ps == [] then [0] else ps, final), Ground, rest)
    {
      FeedCsi(t, ps, final, rest);
    }
  }

  /** The encoding of a printable character prints it. */
  lemma GlyphBrings(t: Term, cp: nat)
    requires IsScalar(cp) && Printable(cp)
    ensures Brings(t, Encode(cp), Put(t, cp))
  {
    forall rest: seq<nat>
      ensures Feed(t, Ground, Encode(cp) + rest) == Feed(Put(t, cp), Ground, rest)
    {
      var bytes := Encode(cp) + rest;
      DecodeEncode(bytes, 0, cp);
      assert bytes[|Encode(cp)|..] == rest;
    }
  }

  // ---------------------------------------------------------------- lengths

  function Pow10(k: nat): nat {
    if k == 0 then 1 else 10 * Pow10(k - 1)
  }

  lemma {:induction false} DigitsLength(v: nat, k: nat)
    requires k > 0 && v < Pow10(k)
    ensures |Digits(v)| <= k
  {
    if v >= 10 {
      assert Pow10(1) == 10;
      DigitsLength(v / 10, k - 1);
    }
  }
}
