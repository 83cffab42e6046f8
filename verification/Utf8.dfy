/** The UTF-8 encoder of `renderer.cpp` and the decoder of `framebuffer.cpp`. */
module Utf8 {

  const REPLACEMENT: nat := 0xFFFD

  predicate IsScalar(cp: nat) {
    cp <= 0x10FFFF && !(0xD800 <= cp <= 0xDFFF)
  }

  function Encode(cp: nat): (out: seq<nat>)
    ensures 1 <= |out| <= 4
    ensures forall i :: 0 <= i < |out| ==> out[i] < 256
  {
    var c := if IsScalar(cp) then cp else REPLACEMENT;
    if c < 0x80 then [c]
    else if c < 0x800 then [0xC0 + c / 64, 0x80 + c % 64]
    else if c < 0x10000 then [0xE0 + c / 4096, 0x80 + c / 64 % 64, 0x80 + c % 64]
    else [0xF0 + c / 262144, 0x80 + c / 4096 % 64, 0x80 + c / 64 % 64, 0x80 + c % 64]
  }

  /** `(b & 0xC0) == 0x80`, inside the string. */
  predicate Cont(s: seq<nat>, i: nat) {
    i < |s| && s[i] / 64 == 2
  }

  /** The code point at `i` and the number of bytes consumed. */
  function Decode(s: seq<nat>, i: nat): (r: (nat, nat))
    ensures 1 <= r.1 <= 4
  {
    if i >= |s| then (REPLACEMENT, 1)
    else
      var b := s[i];
      if b < 0x80 then (b, 1)
      else if b < 0xC2 || b > 0xF4 then (REPLACEMENT, 1)
      else if b < 0xE0 then
        if !Cont(s, i + 1) then (REPLACEMENT, 1)
        else (b % 32 * 64 + s[i + 1] % 64, 2)
      else if b < 0xF0 then
        if !Cont(s, i + 1) || !Cont(s, i + 2) then (REPLACEMENT, 1)
        else
          var v := b % 16 * 4096 + s[i + 1] % 64 * 64 + s[i + 2] % 64;
          if v < 0x800 || 0xD800 <= v <= 0xDFFF then (REPLACEMENT, 1) else (v, 3)
      else if !Cont(s, i + 1) || !Cont(s, i + 2) || !Cont(s, i + 3) then (REPLACEMENT, 1)
      else
        var v := b % 8 * 262144 + s[i + 1] % 64 * 4096 + s[i + 2] % 64 * 64 + s[i + 3] % 64;
        if v < 0x10000 || v > 0x10FFFF then (REPLACEMENT, 1) else (v, 4)
  }

  // ---------------------------------------------------------------- section 4 of RFC 3629

  predicate In(s: seq<nat>, i: nat, lo: nat, hi: nat) {
    i < |s| && lo <= s[i] <= hi
  }

  predicate Tail(s: seq<nat>, i: nat) {
    In(s, i, 0x80, 0xBF)
  }

  predicate Utf8Two(s: seq<nat>, i: nat) {
    In(s, i, 0xC2, 0xDF) && Tail(s, i + 1)
  }

  predicate Utf8Three(s: seq<nat>, i: nat) {
    || (In(s, i, 0xE0, 0xE0) && In(s, i + 1, 0xA0, 0xBF) && Tail(s, i + 2))
    || (In(s, i, 0xE1, 0xEC) && Tail(s, i + 1) && Tail(s, i + 2))
    || (In(s, i, 0xED, 0xED) && In(s, i + 1, 0x80, 0x9F) && Tail(s, i + 2))
    || (In(s, i, 0xEE, 0xEF) && Tail(s, i + 1) && Tail(s, i + 2))
  }

  predicate Utf8Four(s: seq<nat>, i: nat) {
    || (In(s, i, 0xF0, 0xF0) && In(s, i + 1, 0x90, 0xBF) && Tail(s, i + 2) && Tail(s, i + 3))
    || (In(s, i, 0xF1, 0xF3) && Tail(s, i + 1) && Tail(s, i + 2) && Tail(s, i + 3))
    || (In(s, i, 0xF4, 0xF4) && In(s, i + 1, 0x80, 0x8F) && Tail(s, i + 2) && Tail(s, i + 3))
  }

  /** Digits of a code point in base 64, leading digit open-ended. */
  lemma Base64(v: nat, a: nat, b: nat, c: nat)
    requires b < 64 && c < 64
    ensures v == a * 64 + c <==> v / 64 == a && v % 64 == c
    ensures v == a * 4096 + b * 64 + c <==> v / 4096 == a && v / 64 % 64 == b && v % 64 == c
  {
    Base64Two(v, a, c);
    Base64Two(v, a * 64 + b, c);
    Base64Two(v / 64, a, b);
    assert v / 64 / 64 == v / 4096;
  }

  lemma Base64Two(v: nat, a: nat, c: nat)
    requires c < 64
    ensures v == a * 64 + c <==> v / 64 == a && v % 64 == c
  {
  }

  lemma Base64Four(v: nat, a: nat, b: nat, c: nat, d: nat)
    requires b < 64 && c < 64 && d < 64
    ensures v == a * 262144 + b * 4096 + c * 64 + d <==>
              v / 262144 == a && v / 4096 % 64 == b && v / 64 % 64 == c && v % 64 == d
  {
    var w := v / 64;
    assert w / 64 == v / 4096 && w / 4096 == v / 262144;
    Base64(w, a, b, c);
    Base64(v, a * 4096 + b * 64 + c, 0, d);
  }

  lemma TwoBytes(s: seq<nat>, i: nat)
    requires i < |s| && 0xC2 <= s[i] < 0xE0
    ensures var (cp, n) := Decode(s, i);
            && (n == 2 <==> Tail(s, i + 1)) && (n == 1 || n == 2)
            && (n == 1 ==> cp == REPLACEMENT)
            && (n == 2 ==> 0x80 <= cp < 0x800 && s[i] == 0xC0 + cp / 64 && s[i + 1] == 0x80 + cp % 64)
  {
    if Cont(s, i + 1) {
      Base64(Decode(s, i).0, s[i] - 0xC0, 0, s[i + 1] - 0x80);
    }
  }

  lemma ThreeBytes(s: seq<nat>, i: nat)
    requires i < |s| && 0xE0 <= s[i] < 0xF0
    ensures var (cp, n) := Decode(s, i);
            && (n == 3 <==> Utf8Three(s, i)) && (n == 1 || n == 3)
            && (n == 1 ==> cp == REPLACEMENT)
            && (n == 3 ==> 0x800 <= cp < 0x10000 && IsScalar(cp) && i + 3 <= |s| &&
                           s[i] == 0xE0 + cp / 4096 && s[i + 1] == 0x80 + cp / 64 % 64 && s[i + 2] == 0x80 + cp % 64)
  {
    if Cont(s, i + 1) && Cont(s, i + 2) {
      var v := (s[i] - 0xE0) * 4096 + (s[i + 1] - 0x80) * 64 + (s[i + 2] - 0x80);
      assert s[i] % 16 == s[i] - 0xE0;
      Base64(v, s[i] - 0xE0, s[i + 1] - 0x80, s[i + 2] - 0x80);
    }
  }

  lemma FourBytes(s: seq<nat>, i: nat)
    requires i < |s| && 0xF0 <= s[i] <= 0xF4
    ensures var (cp, n) := Decode(s, i);
            && (n == 4 <==> Utf8Four(s, i)) && (n == 1 || n == 4)
            && (n == 1 ==> cp == REPLACEMENT)
            && (n == 4 ==> 0x10000 <= cp <= 0x10FFFF && i + 4 <= |s| && s[i] == 0xF0 + cp / 262144 &&
                           s[i + 1] == 0x80 + cp / 4096 % 64 && s[i + 2] == 0x80 + cp / 64 % 64 && s[i + 3] == 0x80 + cp % 64)
  {
    if Cont(s, i + 1) && Cont(s, i + 2) && Cont(s, i + 3) {
      var v := (s[i] - 0xF0) * 262144 + (s[i + 1] - 0x80) * 4096 + (s[i + 2] - 0x80) * 64 + (s[i + 3] - 0x80);
      assert s[i] % 8 == s[i] - 0xF0;
      Base64Four(v, s[i] - 0xF0, s[i + 1] - 0x80, s[i + 2] - 0x80, s[i + 3] - 0x80);
    }
  }

  /** On arbitrary bytes the decoder always advances, stays inside the string, and accepts a multi-byte
      sequence exactly when the grammar does; anything else is one replacement character for one byte. */
  lemma DecodeIsExact(s: seq<nat>, i: nat)
    requires i < |s|
    ensures var (cp, n) := Decode(s, i);
            && 1 <= n && i + n <= |s|
            && (n == 2 <==> Utf8Two(s, i)) && (n == 3 <==> Utf8Three(s, i)) && (n == 4 <==> Utf8Four(s, i))
            && IsScalar(cp)
            && (n == 1 ==> cp == (if s[i] < 0x80 then s[i] else REPLACEMENT))
            && (n > 1 ==> Encode(cp) == s[i..i + n])
  {
    if 0xC2 <= s[i] < 0xE0 {
      TwoBytes(s, i);
    } else if 0xE0 <= s[i] < 0xF0 {
      ThreeBytes(s, i);
    } else if 0xF0 <= s[i] <= 0xF4 {
      FourBytes(s, i);
    }
  }

  /** The bytes of `e` stand in `s` at `i`. */
  predicate StandsAt(s: seq<nat>, i: nat, e: seq<nat>) {
    i + |e| <= |s| && forall k :: 0 <= k < |e| ==> s[i + k] == e[k]
  }

  /** Decoding undoes encoding, wherever the bytes stand. */
  lemma DecodeEncode(s: seq<nat>, i: nat, cp: nat)
    requires IsScalar(cp) && StandsAt(s, i, Encode(cp))
    ensures Decode(s, i) == (cp, |Encode(cp)|)
  {
    var e := Encode(cp);
    assert s[i + 0] == e[0];
    if 0x80 <= cp < 0x800 {
      assert s[i + 1] == e[1];
      Base64(cp, cp / 64, 0, cp % 64);
      TwoBytes(s, i);
    } else if 0x800 <= cp < 0x10000 {
      assert s[i + 1] == e[1] && s[i + 2] == e[2];
      Decode3(s, i, cp);
    } else if 0x10000 <= cp {
      assert s[i + 1] == e[1] && s[i + 2] == e[2] && s[i + 3] == e[3];
      Decode4(s, i, cp);
    }
  }

  lemma Decode3(s: seq<nat>, i: nat, cp: nat)
    requires IsScalar(cp) && 0x800 <= cp < 0x10000 && i + 3 <= |s|
    requires s[i] == 0xE0 + cp / 4096 && s[i + 1] == 0x80 + cp / 64 % 64 && s[i + 2] == 0x80 + cp % 64
    ensures Decode(s, i) == (cp, 3)
  {
    Base64(cp, cp / 4096, cp / 64 % 64, cp % 64);
    assert s[i] % 16 == cp / 4096;
  }

  lemma Decode4(s: seq<nat>, i: nat, cp: nat)
    requires 0x10000 <= cp <= 0x10FFFF && i + 4 <= |s|
    requires s[i] == 0xF0 + cp / 262144 && s[i + 1] == 0x80 + cp / 4096 % 64
    requires s[i + 2] == 0x80 + cp / 64 % 64 && s[i + 3] == 0x80 + cp % 64
    ensures Decode(s, i) == (cp, 4)
  {
    Base64Four(cp, cp / 262144, cp / 4096 % 64, cp / 64 % 64, cp % 64);
    assert s[i] % 8 == cp / 262144;
  }

  function EncodeAll(cps: seq<nat>): seq<nat> {
    if cps == [] then [] else EncodeAll(cps[..|cps| - 1]) + Encode(cps[|cps| - 1])
  }

  /** Repeated decoding from position `i`, the loop of `Framebuffer::text`. */
  function DecodeAll(s: seq<nat>, i: nat): seq<nat>
    decreases |s| - i
  {
    if i >= |s| then [] else [Decode(s, i).0] + DecodeAll(s, i + Decode(s, i).1)
  }

  /** Decoding the concatenated encodings of any scalar values returns them. */
  lemma RoundTrip(cps: seq<nat>)
    requires forall k :: 0 <= k < |cps| ==> IsScalar(cps[k])
    ensures DecodeAll(EncodeAll(cps), 0) == cps
  {
    DecodeTail(cps, 0);
    assert cps[..0] == [] && cps[0..] == cps;
  }

  lemma {:induction false} DecodeTail(cps: seq<nat>, k: nat)
    requires k <= |cps| && forall j :: 0 <= j < |cps| ==> IsScalar(cps[j])
    ensures DecodeAll(EncodeAll(cps), |EncodeAll(cps[..k])|) == cps[k..]
    decreases |cps| - k
  {
    if k == |cps| {
      assert cps[..k] == cps;
    } else {
      DecodeNext(cps, k);
      DecodeTail(cps, k + 1);
      Prepend(DecodeAll(EncodeAll(cps), |EncodeAll(cps[..k])|), cps, k);
    }
  }

  lemma Prepend(s: seq<nat>, cps: seq<nat>, k: nat)
    requires k < |cps| && s == [cps[k]] + cps[k + 1..]
    ensures s == cps[k..]
  {
  }

  lemma DecodeNext(cps: seq<nat>, k: nat)
    requires k < |cps| && forall j :: 0 <= j < |cps| ==> IsScalar(cps[j])
    ensures var s := EncodeAll(cps);
            DecodeAll(s, |EncodeAll(cps[..k])|) == [cps[k]] + DecodeAll(s, |EncodeAll(cps[..k + 1])|)
  {
    var s, at := EncodeAll(cps), |EncodeAll(cps[..k])|;
    EncodedAt(cps, k);
    DecodeAllEncode(s, at, cps[k], |EncodeAll(cps[..k + 1])|);
  }

  lemma DecodeAllEncode(s: seq<nat>, i: nat, cp: nat, next: nat)
    requires IsScalar(cp) && StandsAt(s, i, Encode(cp)) && next == i + |Encode(cp)|
    ensures DecodeAll(s, i) == [cp] + DecodeAll(s, next)
  {
    DecodeEncode(s, i, cp);
  }

  lemma EncodedAt(cps: seq<nat>, k: nat)
    requires k < |cps|
    ensures var at := |EncodeAll(cps[..k])|;
            StandsAt(EncodeAll(cps), at, Encode(cps[k])) && at + |Encode(cps[k])| == |EncodeAll(cps[..k + 1])|
  {
    var rest := EncodedSplit(cps, k);
    assert cps[..k + 1][..k] == cps[..k];
  }

  lemma {:induction false} EncodedSplit(cps: seq<nat>, k: nat) returns (rest: seq<nat>)
    requires k < |cps|
    ensures EncodeAll(cps) == EncodeAll(cps[..k]) + Encode(cps[k]) + rest
  {
    var n := |cps| - 1;
    if k == n {
      rest := [];
    } else {
      var r := EncodedSplit(cps[..n], k);
      assert cps[..n][..k] == cps[..k];
      rest := r + Encode(cps[n]);
      Regroup(EncodeAll(cps[..k]), Encode(cps[k]), r, Encode(cps[n]));
    }
  }

  lemma Regroup(x: seq<nat>, y: seq<nat>, r: seq<nat>, z: seq<nat>)
    ensures (x + y + r) + z == x + y + (r + z)
  {
  }
}
