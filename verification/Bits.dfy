/** Powers of two and exclusive or, on numbers. */
module Bits {
  import opened Bytes

  function Pow2(n: nat): (p: nat)
    ensures p > 0
  {
    if n == 0 then 1 else 2 * Pow2(n - 1)
  }

  lemma {:induction false} PowAdd(a: nat, b: nat)
    ensures Pow2(a) * Pow2(b) == Pow2(a + b)
    decreases a
  {
    if a > 0 {
      PowAdd(a - 1, b);
      assert Pow2(a) * Pow2(b) == 2 * (Pow2(a - 1) * Pow2(b));
    }
  }

  /** Bitwise exclusive or of two numbers of n bits. */
  function Xor(a: nat, b: nat, n: nat): (r: nat)
    ensures r < Pow2(n)
  {
    if n == 0 then 0 else (a + b) % 2 + 2 * Xor(a / 2, b / 2, n - 1)
  }

  lemma {:induction false} XorTwice(a: nat, b: nat, n: nat)
    requires a < Pow2(n) && b < Pow2(n)
    ensures Xor(Xor(a, b, n), b, n) == a && Xor(b, Xor(a, b, n), n) == a
    decreases n
  {
    if n > 0 {
      XorTwice(a / 2, b / 2, n - 1);
      XorStep(a, b, n);
      var x := Xor(a, b, n);
      XorStep(x, b, n);
      XorStep(b, x, n);
      hide Xor;
      TwoBits(a, b, x);
    }
  }

  lemma XorStep(a: nat, b: nat, n: nat)
    requires n > 0
    ensures var x := Xor(a, b, n);
            x == (a + b) % 2 + 2 * Xor(a / 2, b / 2, n - 1) && x / 2 == Xor(a / 2, b / 2, n - 1) && x % 2 == (a + b) % 2
  {
  }

  lemma TwoBits(a: nat, b: nat, x: nat)
    requires x % 2 == (a + b) % 2
    ensures (x + b) % 2 == a % 2 && (b + x) % 2 == a % 2 && a == a % 2 + 2 * (a / 2)
  {
  }

  lemma {:induction false} XorCommutes(a: nat, b: nat, n: nat)
    ensures Xor(a, b, n) == Xor(b, a, n)
    decreases n
  {
    if n > 0 { XorCommutes(a / 2, b / 2, n - 1); }
  }

  /** Exclusive or of bytes. */
  function Xor8(a: byte, b: byte): (r: byte)
  {
    assert Pow2(8) == 256;
    Xor(a, b, 8)
  }

  /** Exclusive or is undone by either operand. */
  lemma Xor8Twice(a: byte, b: byte)
    ensures Xor8(Xor8(a, b), b) == a && Xor8(Xor8(a, b), a) == b && Xor8(b, Xor8(a, b)) == a && Xor8(a, Xor8(a, b)) == b
  {
    assert Pow2(8) == 256;
    XorTwice(a, b, 8);
    XorTwice(b, a, 8);
    XorCommutes(a, b, 8);
  }

  // ---------- single bits ----------

  /** Bit i of a number: what is left of it after i halvings is odd. */
  predicate BitAt(n: nat, i: nat) { if i == 0 then n % 2 == 1 else BitAt(n / 2, i - 1) }

  lemma DivIs(a: nat, p: nat, q: nat, r: nat)
    requires r < p && a == p * q + r
    ensures a / p == q && a % p == r
  {
    var d, m := a / p, a % p;
    assert a == p * d + m;
    assert p * (d - q) == r - m;
    AtLeastOnce(p, d - q);
  }

  lemma AtLeastOnce(p: int, x: int)
    requires p > 0
    ensures x >= 1 ==> p * x >= p
    ensures x <= -1 ==> p * x <= -p
  {
    if x >= 1 { assert p * x == p + p * (x - 1); }
    if x <= -1 { assert p * x == p * (x + 1) - p; }
  }

  /** Half of a number, divided and reduced. */
  lemma HalfDiv(n: nat, p: nat)
    requires p > 0
    ensures n / (2 * p) == n / 2 / p && n % (2 * p) / 2 == n / 2 % p && n % (2 * p) % 2 == n % 2
  {
    var h, b := n / 2, n % 2;
    var q, r := h / p, h % p;
    assert h == p * q + r;
    assert n == 2 * h + b;
    assert 2 * p * q == 2 * (p * q);
    DivIs(n, 2 * p, q, 2 * r + b);
  }

  /** n >> k */
  function Shr(n: nat, k: nat): nat { if k == 0 then n else Shr(n / 2, k - 1) }

  lemma {:induction false} ShrIs(n: nat, k: nat)
    ensures Shr(n, k) == n / Pow2(k)
    decreases k
  {
    if k > 0 {
      ShrIs(n / 2, k - 1);
      HalfDiv(n, Pow2(k - 1));
    }
  }

  lemma {:induction false} BitShifted(n: nat, k: nat, i: nat)
    ensures BitAt(Shr(n, k), i) <==> BitAt(n, i + k)
    decreases k
  {
    if k > 0 { BitShifted(n / 2, k - 1, i); }
  }

  lemma {:induction false} BitLow(n: nat, k: nat, i: nat)
    requires i < k
    ensures BitAt(n % Pow2(k), i) <==> BitAt(n, i)
    decreases k
  {
    HalfDiv(n, Pow2(k - 1));
    if i > 0 { BitLow(n / 2, k - 1, i - 1); }
  }

  /** Exclusive or, bit by bit. */
  lemma {:induction false} XorBit(a: nat, b: nat, n: nat, i: nat)
    requires i < n
    ensures BitAt(Xor(a, b, n), i) <==> BitAt(a, i) != BitAt(b, i)
    decreases n
  {
    hide Xor;
    XorStep(a, b, n);
    if i > 0 { XorBit(a / 2, b / 2, n - 1, i - 1); }
  }

  /** Two numbers of n bits are equal if their bits are. */
  lemma {:induction false} SameBits(a: nat, b: nat, n: nat)
    requires a < Pow2(n) && b < Pow2(n) && forall i: nat :: i < n ==> (BitAt(a, i) <==> BitAt(b, i))
    ensures a == b
    decreases n
  {
    if n > 0 {
      assert BitAt(a, 0) <==> BitAt(b, 0);
      forall i: nat | i < n - 1 ensures BitAt(a / 2, i) <==> BitAt(b / 2, i) {
        assert BitAt(a, i + 1) <==> BitAt(b, i + 1);
      }
      SameBits(a / 2, b / 2, n - 1);
    }
  }
}
