/** Binary arithmetic on unbounded naturals: what the mask, shift and power-of-two tests of
    `heapviz_abi.h` compute.  `And` and `Shr` are defined digit by digit, so the lemmas below
    are statements about every width. */
module Bits {

  function Pow2(k: nat): (p: nat)
    ensures p > 0
  {
    if k == 0 then 1 else 2 * Pow2(k - 1)
  }

  function And(a: nat, b: nat): nat {
    if a == 0 || b == 0 then 0
    else (if a % 2 == 1 && b % 2 == 1 then 1 else 0) + 2 * And(a / 2, b / 2)
  }

  function Shr(a: nat, k: nat): nat {
    if k == 0 then a else Shr(a / 2, k - 1)
  }

  /** `hv_is_pow2`. */
  predicate IsPow2(v: nat) {
    v != 0 && And(v, v - 1) == 0
  }

  lemma {:induction false} DivTwice(x: nat, p: nat)
    requires p > 0
    ensures x / 2 / p == x / (2 * p)
    ensures x % (2 * p) == x % 2 + 2 * (x / 2 % p)
  {
    var q, r := x / 2 / p, x / 2 % p;
    assert x / 2 == q * p + r;
    assert x == q * (2 * p) + (2 * r + x % 2);
    DivModUnique(x, 2 * p, q, 2 * r + x % 2);
  }

  lemma DivModUnique(x: nat, d: nat, q: nat, r: nat)
    requires r < d && x == q * d + r
    ensures x / d == q && x % d == r
  {
    var q', r' := x / d, x % d;
    assert x == q' * d + r' && r' < d;
    if q < q' {
      MulGap(q, q', d);
    } else if q' < q {
      MulGap(q', q, d);
    }
  }

  lemma {:induction false} MulGap(a: nat, b: nat, d: nat)
    requires a < b
    ensures a * d + d <= b * d
    decreases b
  {
    assert b * d == (b - 1) * d + d;
    if a < b - 1 {
      MulGap(a, b - 1, d);
    }
  }

  /** Masking with `2^k - 1` is reduction modulo `2^k`. */
  lemma {:induction false} MaskIsMod(x: nat, k: nat)
    ensures And(x, Pow2(k) - 1) == x % Pow2(k)
  {
    if k > 0 && x > 0 {
      MaskIsMod(x / 2, k - 1);
      DivTwice(x, Pow2(k - 1));
      assert (Pow2(k) - 1) / 2 == Pow2(k - 1) - 1;
    } else if k == 0 {
      assert Pow2(0) == 1;
    } else {
      DivModUnique(0, Pow2(k), 0, 0);
    }
  }

  /** Shifting right by `k` is division by `2^k`. */
  lemma {:induction false} ShiftIsDiv(x: nat, k: nat)
    ensures Shr(x, k) == x / Pow2(k)
  {
    if k > 0 {
      ShiftIsDiv(x / 2, k - 1);
      DivTwice(x, Pow2(k - 1));
    }
  }

  lemma {:induction false} AndSelf(v: nat)
    ensures And(v, v) == v
  {
    if v > 0 {
      AndSelf(v / 2);
    }
  }

  /** The bit trick accepts exactly the powers of two. */
  lemma {:induction false} IsPow2Exactly(v: nat)
    ensures IsPow2(v) <==> exists k :: v == Pow2(k)
  {
    if IsPow2(v) {
      var k := Log2Witness(v);
    }
    forall k | v == Pow2(k)
      ensures IsPow2(v)
    {
      Pow2Passes(k);
    }
  }

  lemma {:induction false} Log2Witness(v: nat) returns (k: nat)
    requires IsPow2(v)
    ensures v == Pow2(k)
  {
    if v == 1 {
      k := 0;
      assert v == Pow2(0);
    } else {
      assert And(v, v - 1) == (if v % 2 == 1 && (v - 1) % 2 == 1 then 1 else 0) + 2 * And(v / 2, (v - 1) / 2);
      if v % 2 == 1 {
        assert v / 2 == (v - 1) / 2;
        AndSelf(v / 2);
        assert false;
      }
      assert (v - 1) / 2 == v / 2 - 1;
      k := Log2Witness(v / 2);
      k := k + 1;
    }
  }

  lemma {:induction false} Pow2Passes(k: nat)
    ensures IsPow2(Pow2(k))
  {
    if k > 0 {
      Pow2Passes(k - 1);
      var v := Pow2(k);
      assert v / 2 == Pow2(k - 1) && (v - 1) / 2 == v / 2 - 1;
    }
  }

  /** `hv_log2_pow2`: the shift loop counts the exponent of a power of two. */
  method Log2Pow2(v: nat) returns (n: nat)
    requires IsPow2(v)
    ensures Pow2(n) == v
  {
    ghost var k := Log2Witness(v);
    n := 0;
    var w := v / 2;
    assert k > 0 ==> w == Pow2(k - 1);
    while w != 0
      invariant n <= k
      invariant w == if n < k then Pow2(k - n - 1) else 0
      decreases w
    {
      n := n + 1;
      w := w / 2;
    }
  }

  lemma Pow2Of64()
    ensures Pow2(64) == 0x1_0000_0000_0000_0000
  {
    assert Pow2(8) == 256;
    assert Pow2(16) == 65536;
    assert Pow2(24) == 0x100_0000;
    assert Pow2(32) == 0x1_0000_0000;
    assert Pow2(40) == 0x100_0000_0000;
    assert Pow2(48) == 0x1_0000_0000_0000;
    assert Pow2(56) == 0x100_0000_0000_0000;
  }

  /** `std::bit_ceil`, searched upward from a power of two `p`. */
  function CeilFrom(p: nat, n: nat): (c: nat)
    requires p > 0
    ensures c >= n && c >= p
    decreases if n > p then n - p else 0
  {
    if n <= p then p else CeilFrom(2 * p, n)
  }

  lemma {:induction false} CeilLog2(j: nat, n: nat) returns (k: nat)
    ensures CeilFrom(Pow2(j), n) == Pow2(k)
    decreases if n > Pow2(j) then n - Pow2(j) else 0
  {
    if n <= Pow2(j) {
      k := j;
    } else {
      k := CeilLog2(j + 1, n);
    }
  }

  /** The search doubles only while it has to. */
  lemma {:induction false} CeilIsLeast(p: nat, n: nat)
    requires p > 0
    ensures CeilFrom(p, n) > p ==> CeilFrom(p, n) < 2 * n
    decreases if n > p then n - p else 0
  {
    if n > p {
      CeilIsLeast(2 * p, n);
    }
  }

  lemma {:induction false} Pow2Split(a: nat, b: nat)
    ensures Pow2(a) * Pow2(b) == Pow2(a + b)
  {
    if a > 0 {
      Pow2Split(a - 1, b);
      Twice(Pow2(a - 1), Pow2(b));
    }
  }

  lemma Twice(p: nat, q: nat)
    ensures (2 * p) * q == 2 * (p * q)
  {
  }

  lemma DivBelow(a: nat, n: nat, w: nat)
    requires w > 0 && a < w * n
    ensures a / w < n
  {
    var q := a / w;
    assert a == q * w + a % w;
    if n < q {
      MulGap(n, q, w);
    }
    assert n * w == w * n;
  }
}
