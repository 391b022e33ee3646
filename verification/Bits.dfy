/** Masks on machine words, bit by bit, and what `x & ~(p - 1)` computes. */
module Bits {

  function Pow2(k: nat): (r: nat)
    ensures r > 0
  {
    if k == 0 then 1 else 2 * Pow2(k - 1)
  }

  /** Bitwise conjunction. */
  function And(x: nat, y: nat): nat {
    if x == 0 || y == 0 then 0
    else (if x % 2 == 1 && y % 2 == 1 then 1 else 0) + 2 * And(x / 2, y / 2)
  }

  /** Bitwise complement in a word of `width` bits. */
  function Not(width: nat, x: nat): nat
    requires x < Pow2(width)
  {
    Pow2(width) - 1 - x
  }

  /** `x & ~(p - 1)` in a word of `width` bits; the subtraction wraps. */
  function MaskDown(width: nat, x: nat, p: nat): nat {
    And(x, Not(width, (p + Pow2(width) - 1) % Pow2(width)))
  }

  lemma {:induction false} Pow2Monotone(k: nat, w: nat)
    requires k <= w
    ensures Pow2(k) <= Pow2(w)
    ensures k < w ==> Pow2(k) < Pow2(w)
    decreases w
  {
    if k < w {
      Pow2Monotone(k, w - 1);
    }
  }

  lemma ModDouble(x: nat, q: nat)
    requires q > 0
    ensures x % (2 * q) == 2 * ((x / 2) % q) + x % 2
  {
    var h := x / 2;
    var d, m := h / q, h % q;
    assert h == d * q + m;
    assert x == 2 * h + x % 2;
    assert x == d * (2 * q) + (2 * m + x % 2);
    DivModUnique(x, 2 * q, d, 2 * m + x % 2);
  }

  lemma MultipleBound(e: int, q: int)
    requires q > 0
    ensures e >= 1 ==> e * q >= q
    ensures e <= -1 ==> e * q <= -q
  {
    if e >= 1 {
      assert e * q == q + (e - 1) * q;
    } else if e <= -1 {
      assert e * q == -q + (e + 1) * q;
    }
  }

  lemma DivModUnique(x: int, q: int, d: int, m: int)
    requires q > 0 && 0 <= m < q && x == d * q + m
    ensures x / q == d && x % q == m
  {
    assert x == (x / q) * q + x % q;
    assert (d - x / q) * q == x % q - m;
    MultipleBound(d - x / q, q);
  }

  lemma AndDouble(x: nat, y: nat)
    ensures And(x, 2 * y) == 2 * And(x / 2, y)
  {
  }

  lemma AndDoublePlusOne(x: nat, y: nat)
    ensures And(x, 2 * y + 1) == x % 2 + 2 * And(x / 2, y)
  {
  }

  lemma {:induction false} AndAllOnes(w: nat, x: nat)
    requires x < Pow2(w)
    ensures And(x, Pow2(w) - 1) == x
  {
    if w > 0 {
      AndAllOnes(w - 1, x / 2);
      AndDoublePlusOne(x, Pow2(w - 1) - 1);
    }
  }

  /** The low `k` bits of `x`. */
  function LowBits(x: nat, k: nat): nat {
    if k == 0 then 0 else x % 2 + 2 * LowBits(x / 2, k - 1)
  }

  lemma {:induction false} LowBitsIsMod(x: nat, k: nat)
    ensures LowBits(x, k) == x % Pow2(k)
  {
    if k > 0 {
      LowBitsIsMod(x / 2, k - 1);
      ModDouble(x, Pow2(k - 1));
    }
  }

  lemma {:induction false} LowBitsAll(x: nat, k: nat)
    requires x < Pow2(k)
    ensures LowBits(x, k) == x
  {
    if k > 0 {
      LowBitsAll(x / 2, k - 1);
    }
  }

  /** Clearing the low `k` bits of a `w`-bit word. */
  lemma {:induction false} AndHighOnes(w: nat, k: nat, x: nat)
    requires k <= w && x < Pow2(w)
    ensures Pow2(k) <= Pow2(w)
    ensures And(x, Pow2(w) - Pow2(k)) == x - LowBits(x, k)
    decreases w
  {
    Pow2Monotone(k, w);
    if k == w {
      LowBitsAll(x, k);
    } else if k == 0 {
      AndAllOnes(w, x);
    } else {
      AndHighOnes(w - 1, k - 1, x / 2);
      AndDouble(x, Pow2(w - 1) - Pow2(k - 1));
    }
  }

  /** For a power of two the mask rounds down to a multiple. */
  lemma MaskDownPow2(width: nat, k: nat, x: nat)
    requires k < width && x < Pow2(width)
    ensures MaskDown(width, x, Pow2(k)) == x - x % Pow2(k)
  {
    Pow2Monotone(k, width);
    AndHighOnes(width, k, x);
    LowBitsIsMod(x, k);
    DivModUnique(Pow2(k) + Pow2(width) - 1, Pow2(width), 1, Pow2(k) - 1);
  }

  lemma {:induction false} Pow2Add(a: nat, b: nat)
    ensures Pow2(a + b) == Pow2(a) * Pow2(b)
  {
    if a > 0 {
      Pow2Add(a - 1, b);
      assert Pow2(a) * Pow2(b) == 2 * (Pow2(a - 1) * Pow2(b));
    }
  }

  lemma Pow2Words()
    ensures Pow2(16) == 65536 && Pow2(17) == 131072
    ensures Pow2(32) == 0x1_0000_0000 && Pow2(64) == 0x1_0000_0000_0000_0000
  {
    assert Pow2(4) == 16;
    Pow2Add(4, 4);
    Pow2Add(8, 8);
    Pow2Add(16, 16);
    Pow2Add(32, 32);
  }
}
