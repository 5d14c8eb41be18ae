/**
 Unsigned 32-bit arithmetic as the C sources use it: addition and subtraction modulo 2^32,
 bitwise conjunction, and the power-of-two test of the queue.
 */
module Word32 {

  const M: nat := 0x1_0000_0000

  type u32 = x: int | 0 <= x < M

  /** Addition and subtraction modulo 2^32. */
  function Add(a: u32, b: u32): u32 {
    if a + b < M then a + b else a + b - M
  }

  function Sub(a: u32, b: u32): u32 {
    if a >= b then a - b else a - b + M
  }

  function Pow2(k: nat): nat {
    if k == 0 then 1 else 2 * Pow2(k - 1)
  }

  /** Bitwise conjunction of two naturals, one binary digit at a time. */
  function And(a: nat, b: nat): (r: nat)
    ensures r <= a && r <= b
    decreases a
  {
    if a == 0 || b == 0 then 0
    else (if a % 2 == 1 && b % 2 == 1 then 1 else 0) + 2 * And(a / 2, b / 2)
  }

  /** The macro IS_POWER_OF_2, with its unsigned wrap-around at zero. */
  predicate PowerOfTwoTest(x: u32) {
    And(Sub(x, 1), x) == 0
  }

  lemma {:induction false} Pow2Monotone(j: nat, k: nat)
    requires j <= k
    ensures 1 <= Pow2(j) <= Pow2(k)
    decreases k
  {
    if k > 0 {
      if j == k { Pow2Monotone(j - 1, k - 1); } else { Pow2Monotone(j, k - 1); }
    }
  }

  lemma Pow2At32()
    ensures Pow2(32) == M
  {
    assert Pow2(8) == 256;
    Pow2Add(8, 8);
    Pow2Add(16, 16);
  }

  lemma {:induction false} Pow2Add(j: nat, k: nat)
    ensures Pow2(j + k) == Pow2(j) * Pow2(k)
  {
    if j > 0 {
      Pow2Add(j - 1, k);
      assert Pow2(j + k) == 2 * Pow2(j - 1 + k);
      assert Pow2(j) * Pow2(k) == 2 * (Pow2(j - 1) * Pow2(k));
    }
  }

  lemma AndOddMask(a: nat, p: nat)
    requires p >= 1
    ensures And(a, 2 * p - 1) == a % 2 + 2 * And(a / 2, p - 1)
  {
    var m := 2 * p - 1;
    assert m / 2 == p - 1 && m % 2 == 1;
  }

  /** Masking with 2^k - 1 keeps the remainder modulo 2^k. */
  lemma {:induction false} AndMask(a: nat, k: nat)
    ensures Pow2(k) >= 1
    ensures And(a, Pow2(k) - 1) == a % Pow2(k)
    decreases k
  {
    if k > 0 {
      AndMask(a / 2, k - 1);
      AndOddMask(a, Pow2(k - 1));
      DoubleMod(a, Pow2(k - 1));
    }
  }

  lemma DoubleMod(a: nat, p: nat)
    requires p >= 1
    ensures a % (2 * p) == a % 2 + 2 * ((a / 2) % p)
  {
    var h := a / 2;
    var q, r := h / p, h % p;
    calc {
      a;
      2 * h + a % 2;
      2 * (p * q + r) + a % 2;
      (2 * p) * q + (2 * r + a % 2);
    }
    DivModUnique(a, 2 * p, q, 2 * r + a % 2);
  }

  lemma DivModUnique(a: int, n: int, q: int, r: int)
    requires n > 0 && a == n * q + r && 0 <= r < n
    ensures a % n == r && a / n == q
  {
    var d := a / n - q;
    assert n * d == r - a % n;
    assert d >= 1 ==> n * d >= n;
    assert d <= -1 ==> n * d <= -n;
  }

  lemma SmallRemainder(n: nat, p: nat)
    requires n < p
    ensures n % p == n
  {
    DivModUnique(n, p, 0, n);
  }

  lemma ModOfProduct(a: int, p: int, q: int)
    requires p > 0 && q > 0
    ensures p * q > 0 && (a % (p * q)) % p == a % p
  {
    var n := p * q;
    var t := a / n;
    var b := a % n;
    var u := b / p;
    calc {
      a;
      n * t + b;
      p * (q * t) + (p * u + b % p);
      p * (q * t + u) + b % p;
    }
    DivModUnique(a, p, q * t + u, b % p);
  }

  /** Taking the remainder modulo 2^32 first does not change a remainder modulo a power of two. */
  lemma ModOfMod(a: nat, k: nat)
    requires k <= 32
    ensures Pow2(k) >= 1
    ensures (a % M) % Pow2(k) == a % Pow2(k)
  {
    Pow2Monotone(0, k);
    Pow2Monotone(0, 32 - k);
    Pow2At32();
    Pow2Add(k, 32 - k);
    ModOfProduct(a, Pow2(k), Pow2(32 - k));
  }

  lemma {:induction false} AndSelf(a: nat)
    ensures And(a, a) == a
  {
    if a > 0 { AndSelf(a / 2); }
  }

  /** Halving reaches one without meeting an odd number first. */
  predicate IsPow2(x: nat) {
    x == 1 || (x > 1 && x % 2 == 0 && IsPow2(x / 2))
  }

  lemma {:induction false} Exponent(x: nat) returns (k: nat)
    requires IsPow2(x)
    ensures x == Pow2(k)
  {
    if x == 1 {
      k := 0;
    } else {
      var j := Exponent(x / 2);
      k := j + 1;
    }
  }

  lemma Pow2BelowWord(k: nat)
    requires Pow2(k) < M
    ensures k < 32
  {
    if k >= 32 {
      Pow2At32();
      Pow2Monotone(32, k);
    }
  }

  lemma {:induction false} AndPredecessor(x: nat)
    requires 1 <= x
    ensures And(x - 1, x) == 0 <==> IsPow2(x)
  {
    if x > 1 {
      if x % 2 == 1 {
        AndSelf(x / 2);
        assert (x - 1) / 2 == x / 2;
      } else {
        AndPredecessor(x / 2);
        assert (x - 1) / 2 == x / 2 - 1;
      }
    }
  }

  /** The test accepts exactly zero and the powers of two. */
  lemma PowerOfTwoTestExact(x: u32)
    ensures PowerOfTwoTest(x) <==> x == 0 || IsPow2(x)
  {
    if x != 0 {
      assert Sub(x, 1) == x - 1;
      AndPredecessor(x);
    }
  }
}
