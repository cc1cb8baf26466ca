/** Integer facts shared by the other modules: powers, divisibility by powers of two, division. */
module Arith {

  function Pow(b: int, e: nat): int {
    if e == 0 then 1 else b * Pow(b, e - 1)
  }

  function Pow2(k: nat): (p: nat)
    ensures p >= 1
  {
    if k == 0 then 1 else 2 * Pow2(k - 1)
  }

  lemma {:induction false} PowAdd(b: int, m: nat, n: nat)
    ensures Pow(b, m + n) == Pow(b, m) * Pow(b, n)
  {
    if m == 0 {
    } else {
      PowAdd(b, m - 1, n);
      assert Pow(b, m + n) == b * Pow(b, m - 1 + n);
      assert b * (Pow(b, m - 1) * Pow(b, n)) == (b * Pow(b, m - 1)) * Pow(b, n);
    }
  }

  lemma {:induction false} Pow2Add(m: nat, n: nat)
    ensures Pow2(m + n) == Pow2(m) * Pow2(n)
  {
    if m == 0 {
    } else {
      Pow2Add(m - 1, n);
      assert Pow2(m + n) == 2 * Pow2(m - 1 + n);
    }
  }

  lemma MulAtLeast(e: int, d: int)
    requires e >= 1 && d >= 0
    ensures e * d >= d
  {
    if e > 1 {
      MulAtLeast(e - 1, d);
      assert e * d == (e - 1) * d + d;
    }
  }

  /** A quotient and a remainder that fit are the quotient and the remainder. */
  lemma DivModUnique(n: int, d: int, q: int, r: int)
    requires 0 <= r < d
    requires n == q * d + r
    ensures n / d == q && n % d == r
  {
    var p := n / d;
    assert n == p * d + n % d;
    assert (p - q) * d == p * d - q * d;
    assert (q - p) * d == q * d - p * d;
    if p > q { MulAtLeast(p - q, d); }
    if p < q { MulAtLeast(q - p, d); }
  }

  lemma ModOfMultiple(q: int, d: int)
    requires d > 0
    ensures (q * d) % d == 0 && (q * d) / d == q
  {
    DivModUnique(q * d, d, q, 0);
  }

  /** Adding a multiple of the modulus does not change the remainder. */
  lemma ModShift(n: int, q: int, d: int)
    requires d > 0
    ensures (n + q * d) % d == n % d
  {
    assert (n / d + q) * d == (n / d) * d + q * d;
    DivModUnique(n + q * d, d, n / d + q, n % d);
  }

  /** Two numbers have the same remainder exactly when the modulus divides their difference. */
  lemma SameRemainder(a: int, b: int, d: int)
    requires d > 0
    ensures a % d == b % d <==> (a - b) % d == 0
  {
    if a % d == b % d {
      assert a - b == (a / d - b / d) * d;
      ModOfMultiple(a / d - b / d, d);
    }
    if (a - b) % d == 0 {
      assert a == b + ((a - b) / d) * d;
      ModShift(b, (a - b) / d, d);
    }
  }

  lemma MulLess(a: nat, b: nat, d: nat)
    requires a < b
    ensures a * d + d <= b * d
  {
    MulAtLeast(b - a, d);
    assert (b - a) * d == b * d - a * d;
  }

  lemma MulMonotone(a: nat, b: nat, d: nat)
    requires a <= b
    ensures a * d <= b * d
  {
    assert b * d - a * d == (b - a) * d;
  }

  /** n is a multiple of d exactly when it is q * d for its own quotient q. */
  lemma Exact(n: int, d: int)
    requires d > 0 && n % d == 0
    ensures n == (n / d) * d
  {
  }

  lemma OddTimesOdd(x: int, c: int)
    requires x % 2 == 1 && c % 2 == 1
    ensures (x * c) % 2 == 1
  {
    TimesOdd(x, c, c / 2);
    OddSum(x * c, x * (c / 2), x);
  }

  lemma OddSum(p: int, h: int, x: int)
    requires p == 2 * h + x && x % 2 == 1
    ensures p % 2 == 1
  {
  }

  lemma TimesOdd(x: int, c: int, b: int)
    requires c == 2 * b + 1
    ensures x * c == 2 * (x * b) + x
  {
  }

  /** An odd factor can be cancelled when testing divisibility by a power of two. */
  lemma OddFactor(k: nat, x: int, c: int)
    requires c % 2 == 1
    ensures (x * c) % Pow2(k) == 0 <==> x % Pow2(k) == 0
  {
    if x % Pow2(k) == 0 { MultipleTimes(x, c, Pow2(k)); }
    if (x * c) % Pow2(k) == 0 { OddCancel(k, x, c); }
  }

  lemma MultipleTimes(x: int, c: int, d: int)
    requires d > 0 && x % d == 0
    ensures (x * c) % d == 0
  {
    var q := x / d;
    Exact(x, d);
    assert x * c == (q * c) * d by { assert (q * d) * c == (q * c) * d; }
    ModOfMultiple(q * c, d);
  }

  lemma {:induction false} OddCancel(k: nat, x: int, c: int)
    requires c % 2 == 1
    requires (x * c) % Pow2(k) == 0
    ensures x % Pow2(k) == 0
  {
    if k > 0 {
      var p := Pow2(k - 1);
      var q := (x * c) / Pow2(k);
      Exact(x * c, Pow2(k));
      Doubled(q, p);
      if x % 2 == 1 { OddTimesOdd(x, c); }
      var y := x / 2;
      assert x * c == 2 * (y * c) by { assert (2 * y) * c == 2 * (y * c); }
      ModOfMultiple(q, p);
      OddCancel(k - 1, y, c);
      Exact(y, p);
      Doubled(y / p, p);
      ModOfMultiple(y / p, Pow2(k));
    }
  }

  lemma Doubled(q: int, p: int)
    ensures q * (2 * p) == 2 * (q * p)
  {
  }

  /** The inverse of an odd number modulo 2^k, found one bit at a time. */
  function OddInverse(m: int, k: nat): (x: nat)
    requires m % 2 == 1
    ensures x < Pow2(k)
    ensures (m * x) % Pow2(k) == 1 % Pow2(k)
  {
    if k == 0 then 0
    else
      var p := Pow2(k - 1);
      NextInverse(m, OddInverse(m, k - 1), p);
      NextBit(m, OddInverse(m, k - 1), p)
  }

  /** An inverse modulo p, or that plus p, is one modulo 2p. */
  function NextBit(m: int, x: nat, p: nat): nat
    requires p > 0
  {
    if ((m * x - 1) / p) % 2 == 0 then x else x + p
  }

  lemma NextInverse(m: int, x: nat, p: nat)
    requires p > 0 && m % 2 == 1 && x < p && (m * x) % p == 1 % p
    ensures NextBit(m, x, p) < 2 * p && (m * NextBit(m, x, p)) % (2 * p) == 1 % (2 * p)
  {
    var t := (m * x - 1) / p;
    SameRemainder(m * x, 1, p);
    Exact(m * x - 1, p);
    NextInverseBit(m, x, p, t);
  }

  lemma NextInverseBit(m: int, x: int, p: int, t: int)
    requires p > 0 && m % 2 == 1
    requires m * x - 1 == t * p
    ensures t % 2 == 0 ==> (m * x) % (2 * p) == 1 % (2 * p)
    ensures t % 2 == 1 ==> (m * (x + p)) % (2 * p) == 1 % (2 * p)
  {
    if t % 2 == 0 {
      EvenMultiple(t, p);
    } else {
      assert m * (x + p) == m * x + m * p;
      assert t * p + m * p == (t + m) * p;
      EvenMultiple(t + m, p);
    }
  }

  lemma EvenMultiple(t: int, p: int)
    requires p > 0 && t % 2 == 0
    ensures (1 + t * p) % (2 * p) == 1 % (2 * p)
  {
    var h := t / 2;
    assert (2 * h) * p == h * (2 * p);
    ModShift(1, h, 2 * p);
  }

  /** The numbers below n. */
  function Below(n: nat): (s: set<nat>)
    ensures |s| == n
    ensures forall i: nat :: i in s <==> i < n
  {
    if n == 0 then {} else Below(n - 1) + {n - 1}
  }

  /** An injective map of {0, .., n-1} into itself reaches every element. */
  lemma InjectiveIsSurjective(n: nat, f: nat -> nat, y: nat)
    requires forall i: nat | i < n :: f(i) < n
    requires forall i: nat, j: nat | i < j < n :: f(i) != f(j)
    requires y < n
    ensures exists i: nat :: i < n && f(i) == y
  {
    hide Image, Below;
    var image := Image(n, f);
    ImageHas(n, f, y);
    if y !in image {
      ImageSize(n, f);
      forall z <- image ensures z in Below(n) - {y} { ImageHas(n, f, z); }
      SubsetSize(image, Below(n) - {y});
    }
  }

  ghost function Image(m: nat, f: nat -> nat): set<nat> {
    if m == 0 then {} else Image(m - 1, f) + {f(m - 1)}
  }

  lemma {:induction false} ImageHas(m: nat, f: nat -> nat, y: nat)
    ensures y in Image(m, f) <==> exists i: nat :: i < m && f(i) == y
  {
    if m > 0 {
      ImageHas(m - 1, f, y);
      if i: nat :| i < m && f(i) == y {
        if i < m - 1 { assert exists i: nat :: i < m - 1 && f(i) == y; }
      }
    }
  }

  lemma {:induction false} ImageSize(m: nat, f: nat -> nat)
    requires forall i: nat, j: nat | i < j < m :: f(i) != f(j)
    ensures |Image(m, f)| == m
  {
    if m > 0 {
      ImageSize(m - 1, f);
      ImageHas(m - 1, f, f(m - 1));
    }
  }

  lemma {:induction false} SubsetSize<T>(a: set<T>, b: set<T>)
    requires a <= b
    ensures |a| <= |b|
  {
    if a == {} {
    } else {
      var x :| x in a;
      SubsetSize(a - {x}, b - {x});
    }
  }

  // Powers of two.

  ghost predicate IsPow2(n: nat) {
    exists k: nat :: Pow2(k) == n
  }

  /** `next_power_of_two`: the smallest power of two that is at least n. */
  function NextPow2(n: nat): (p: nat)
    ensures p >= n && p >= 1
  {
    if n <= 1 then 1 else 2 * NextPow2((n + 1) / 2)
  }

  lemma {:induction false} NextPow2Least(n: nat, k: nat)
    ensures IsPow2(NextPow2(n))
    ensures n <= Pow2(k) ==> NextPow2(n) <= Pow2(k)
    decreases n
  {
    if n <= 1 {
      assert Pow2(0) == 1;
    } else {
      NextPow2Least((n + 1) / 2, if k > 0 then k - 1 else 0);
      var e: nat :| Pow2(e) == NextPow2((n + 1) / 2);
      assert Pow2(e + 1) == NextPow2(n);
    }
  }

  /** Powers of two are their own next power of two. */
  lemma NextPow2Fixed(n: nat)
    ensures NextPow2(n) == n <==> IsPow2(n)
  {
    NextPow2Least(n, 0);
    if IsPow2(n) {
      var k: nat :| Pow2(k) == n;
      NextPow2Least(n, k);
    }
  }
}
