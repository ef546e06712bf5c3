/** Unsigned machine words modelled as natural numbers. The bitwise operators are defined bit by bit, so
    every law below is an induction over the bits and holds for a mask or shift of any width. */
module MachineWords {

  /** 2^64: the range of size_t, uintptr_t, unsigned long and phys_addr_t. */
  const WORD: nat := 0x1_0000_0000_0000_0000

  type Word = x: nat | x < WORD

  /** ~x of a 64-bit word. */
  function Complement(x: Word): Word {
    WORD - 1 - x
  }

  function Pow2(k: nat): (p: nat)
    ensures 0 < p
  {
    if k == 0 then 1 else 2 * Pow2(k - 1)
  }

  ghost predicate IsPow2(n: nat) {
    exists k: nat :: n == Pow2(k)
  }

  function And(x: nat, y: nat): nat {
    if x == 0 || y == 0 then 0
    else 2 * And(x / 2, y / 2) + (if x % 2 == 1 && y % 2 == 1 then 1 else 0)
  }

  function Or(x: nat, y: nat): nat {
    if x == 0 then y else if y == 0 then x
    else 2 * Or(x / 2, y / 2) + (if x % 2 == 1 || y % 2 == 1 then 1 else 0)
  }

  function Xor(x: nat, y: nat): nat {
    if x == 0 then y else if y == 0 then x
    else 2 * Xor(x / 2, y / 2) + (if x % 2 != y % 2 then 1 else 0)
  }

  /** Bit k of x. */
  predicate Bit(x: nat, k: nat) {
    if k == 0 then x % 2 == 1 else Bit(x / 2, k - 1)
  }

  /** It is the last binary digit of x without its k lowest ones. */
  lemma {:induction false} BitIsQuotient(x: nat, k: nat)
    ensures Bit(x, k) <==> x / Pow2(k) % 2 == 1
  {
    if k > 0 {
      BitIsQuotient(x / 2, k - 1);
      HalvedQuotient(x, Pow2(k - 1));
    }
  }

  lemma HalvedQuotient(x: nat, m: nat)
    requires m > 0
    ensures x / 2 / m == x / (2 * m)
  {
    var q, r := x / 2 / m, x / 2 % m;
    assert x == 2 * (q * m + r) + x % 2;
    assert x == q * (2 * m) + (2 * r + x % 2);
    DivModUnique(x, 2 * m, q, 2 * r + x % 2);
  }

  lemma {:induction false} ZeroHasNoBits(k: nat)
    ensures !Bit(0, k)
  {
    if k > 0 { ZeroHasNoBits(k - 1); }
  }

  /** The lowest bit and the other bits of the results. */
  lemma Halves(x: nat, y: nat)
    ensures And(x, y) / 2 == And(x / 2, y / 2) && (And(x, y) % 2 == 1 <==> x % 2 == 1 && y % 2 == 1)
    ensures Or(x, y) / 2 == Or(x / 2, y / 2) && (Or(x, y) % 2 == 1 <==> x % 2 == 1 || y % 2 == 1)
    ensures Xor(x, y) / 2 == Xor(x / 2, y / 2) && (Xor(x, y) % 2 == 1 <==> x % 2 != y % 2)
  {}

  /** The operators act bit by bit. */
  lemma {:induction false} BitwiseOperators(x: nat, y: nat, k: nat)
    ensures Bit(And(x, y), k) <==> Bit(x, k) && Bit(y, k)
    ensures Bit(Or(x, y), k) <==> Bit(x, k) || Bit(y, k)
    ensures Bit(Xor(x, y), k) <==> Bit(x, k) != Bit(y, k)
  {
    Halves(x, y);
    if k > 0 { BitwiseOperators(x / 2, y / 2, k - 1); }
  }

  /** Masking with 2^k - 1 is the remainder modulo 2^k. */
  lemma {:induction false} AndLowMask(x: nat, k: nat)
    ensures And(x, Pow2(k) - 1) == x % Pow2(k)
  {
    if k > 0 {
      var m := Pow2(k - 1);
      var masked, rest := And(x / 2, m - 1), (x / 2) % m;
      assert masked == rest by { AndLowMask(x / 2, k - 1); }
      assert And(x, 2 * (m - 1) + 1) == 2 * masked + x % 2 by { AndOdd(x, m - 1); }
      assert x % (2 * m) == 2 * rest + x % 2 by { HalfModulo(x, m); }
    } else {
      assert And(x, 0) == 0;
    }
  }

  lemma AndOdd(x: nat, n: nat)
    ensures And(x, 2 * n + 1) == 2 * And(x / 2, n) + x % 2
  {}

  lemma HalfModulo(x: nat, m: nat)
    requires m > 0
    ensures x % (2 * m) == 2 * ((x / 2) % m) + x % 2
  {
    var q, r := (x / 2) / m, (x / 2) % m;
    assert x == 2 * (q * m + r) + x % 2;
    DivModUnique(x, 2 * m, q, 2 * r + x % 2);
  }

  /** Quotient and remainder are determined by the division equation. */
  lemma DivModUnique(x: int, m: int, q: int, r: int)
    requires 0 <= r < m && x == q * m + r
    ensures x / m == q && x % m == r
  {
    var d := x / m - q;
    assert d * m == r - x % m;
    assert d >= 1 ==> d * m >= m;
    assert d <= -1 ==> d * m <= -m;
  }

  /** A mask and its complement split x: x & m and x & ~m add up to x, for words of any width w. */
  lemma {:induction false} AndComplement(x: nat, m: nat, w: nat)
    requires x < Pow2(w) && m < Pow2(w)
    ensures And(x, m) + And(x, Pow2(w) - 1 - m) == x
    ensures And(x, m) <= m
  {
    if w > 0 {
      var c := Pow2(w) - 1 - m;
      AndComplement(x / 2, m / 2, w - 1);
      assert c / 2 == Pow2(w - 1) - 1 - m / 2 && c % 2 == 1 - m % 2;
      Halves(x, m);
      Halves(x, c);
    }
  }

  /** A 64-bit mask and its complement split any word. */
  lemma WordComplement(x: Word, m: Word)
    ensures And(x, m) + And(x, Complement(m)) == x
    ensures And(x, m) <= m
  {
    var w := WordWidth();
    AndComplement(x, m, w);
  }

  lemma WordWidth() returns (w: nat)
    ensures w == 64 && Pow2(w) == WORD
  {
    w := 64;
    assert Pow2(8) == 0x100;
    Pow2Adds(8, 8);
    Pow2Adds(16, 16);
    Pow2Adds(32, 32);
  }

  lemma {:induction false} Pow2Adds(a: nat, b: nat)
    ensures Pow2(a + b) == Pow2(a) * Pow2(b)
  {
    if a > 0 { Pow2Adds(a - 1, b); }
  }

  lemma {:induction false} Pow2Monotone(a: nat, b: nat)
    requires a < b
    ensures 2 * Pow2(a) <= Pow2(b)
  {
    if a + 1 < b { Pow2Monotone(a, b - 1); }
  }

  /** Of two powers of two the smaller divides the larger. */
  lemma Pow2Divides(a: nat, b: nat)
    requires IsPow2(a) && IsPow2(b) && a <= b
    ensures b % a == 0
  {
    var j: nat, k: nat :| a == Pow2(j) && b == Pow2(k);
    if k < j { Pow2Monotone(k, j); }
    Pow2Adds(k - j, j);
    DivModUnique(b, a, Pow2(k - j), 0);
  }

  /** The `n & (n - 1)` idiom tests for a power of two. */
  lemma {:induction false} PowerOfTwoIdiom(n: nat)
    requires n > 0
    ensures And(n, n - 1) == 0 <==> IsPow2(n)
  {
    if n == 1 {
      assert n == Pow2(0);
    } else if n % 2 == 1 {
      AndSelf(n / 2);
      assert And(n, n - 1) == 2 * And(n / 2, n / 2);
      forall k: nat ensures n != Pow2(k) {
        assert k == 0 || Pow2(k) == 2 * Pow2(k - 1);
      }
    } else {
      PowerOfTwoIdiom(n / 2);
      assert And(n, n - 1) == 2 * And(n / 2, n / 2 - 1);
      if IsPow2(n / 2) {
        var k: nat :| n / 2 == Pow2(k);
        assert n == Pow2(k + 1);
      }
      if IsPow2(n) {
        var k: nat :| n == Pow2(k);
        assert n / 2 == Pow2(k - 1);
      }
    }
  }

  lemma {:induction false} AndSelf(n: nat)
    ensures And(n, n) == n
  {
    if n > 0 { AndSelf(n / 2); }
  }

  /** An inner remainder does not change an outer one. */
  lemma ModAdd(x: int, d: int, m: nat)
    requires m > 0
    ensures (x % m + d) % m == (x + d) % m
  {
    var q, y := x / m, x % m + d;
    var p, r := y / m, y % m;
    assert x == q * m + x % m && y == p * m + r;
    assert x + d == (q + p) * m + r;
    DivModUnique(x + d, m, q + p, r);
  }

  /** Adding d keeps the remainder if and only if d is a multiple. */
  lemma ModMoves(x: int, d: int, m: nat)
    requires m > 0
    ensures (x + d) % m == x % m <==> d % m == 0
  {
    var a, b := x % m, d % m;
    ModAdd(x, d, m);
    ModAdd(d, a, m);
    assert (x + d) % m == (b + a) % m;
    if a + b >= m {
      DivModUnique(b + a, m, 1, a + b - m);
    } else {
      DivModUnique(b + a, m, 0, a + b);
    }
  }

  /** An inner wrap-around at 2^64 does not change an outer one. */
  lemma WrapAdd(x: int, d: int)
    ensures (x % WORD + d) % WORD == (x + d) % WORD
  {
    ModAdd(x, d, WORD);
  }

  /** A counter from which more is taken than it holds wraps to the top of the word. */
  lemma WrapDown(x: Word, d: Word)
    ensures (x - d) % WORD == if d <= x then x - d else WORD + x - d
  {
    DivModUnique(x - d, WORD, if d <= x then 0 else -1, if d <= x then x - d else WORD + x - d);
  }
}
