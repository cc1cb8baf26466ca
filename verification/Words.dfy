/** Machine words as bounded naturals, with the operations the generators use. */
module Words {
  import opened Arith

  const TWO64: nat := 0x1_0000_0000_0000_0000
  const TWO128: nat := 0x1_0000_0000_0000_0000_0000_0000_0000_0000

  type u8 = x: nat | x < 0x100
  type u64 = x: nat | x < 0x1_0000_0000_0000_0000
  type u128 = x: nat | x < 0x1_0000_0000_0000_0000_0000_0000_0000_0000

  function WrappingMul(a: u64, b: u64): u64 {
    (a * b) % TWO64
  }

  function WrappingAdd(a: u64, b: u64): u64 {
    (a + b) % TWO64
  }

  lemma WordSizes()
    ensures Pow2(64) == TWO64 && Pow2(128) == TWO128
  {
    ByteSize();
    hide Pow2;
    Pow2Add(8, 8);
    Pow2Add(16, 16);
    Pow2Add(32, 32);
    Pow2Add(64, 64);
  }

  lemma ByteSize()
    ensures Pow2(8) == 0x100
  {
  }

  /** Multiplying by an odd word loses nothing: the inverse word undoes it. */
  lemma OddMulUndo(m: u64, inv: u64, x: u64)
    requires (m * inv) % TWO64 == 1
    ensures WrappingMul(WrappingMul(x, m), inv) == x
    ensures WrappingMul(m, x) == WrappingMul(x, m)
  {
    var k := UndoQuotient(x, m, inv, WrappingMul(x, m), TWO64);
    ModShift(x, k, TWO64);
  }

  lemma UndoQuotient(x: nat, m: nat, inv: nat, y: nat, w: nat) returns (k: int)
    requires w > 1 && y == (x * m) % w && (m * inv) % w == 1
    ensures y * inv == x + k * w
  {
    var q, r := (x * m) / w, (m * inv) / w;
    k := x * r - q * inv;
    UndoProduct(x, m, inv, y, w, q, r);
  }

  lemma UndoProduct(x: int, m: int, inv: int, y: int, w: int, q: int, r: int)
    requires x * m == q * w + y && m * inv == r * w + 1
    ensures y * inv == x + (x * r - q * inv) * w
  {
    assert y * inv == (x * m) * inv - (q * w) * inv;
    assert (x * m) * inv == x * (m * inv) == x * (r * w) + x;
    assert x * (r * w) == (x * r) * w;
    assert (q * w) * inv == (q * inv) * w;
    assert (x * r - q * inv) * w == (x * r) * w - (q * inv) * w;
  }

  /** Multiplying by an odd word and by its inverse undo each other. */
  lemma MulBothWays(m: u64, x: u64, y: u64)
    requires m % 2 == 1
    ensures OddInverse(m, 64) < TWO64
    ensures WrappingMul(x, m) == y <==> x == WrappingMul(y, OddInverse(m, 64))
  {
    WordSizes();
    var inv := OddInverse(m, 64);
    assert (m * inv) % TWO64 == 1;
    assert inv * m == m * inv;
    OddMulUndo(m, inv, x);
    OddMulUndo(inv, m, y);
  }

  // Exclusive or, bit by bit.

  function Xor(a: nat, b: nat): nat
    decreases a + b
  {
    if a == 0 && b == 0 then 0 else 2 * Xor(a / 2, b / 2) + (a + b) % 2
  }

  lemma {:induction false} XorBound(a: nat, b: nat, k: nat)
    requires a < Pow2(k) && b < Pow2(k)
    ensures Xor(a, b) < Pow2(k)
    decreases k
  {
    if k > 0 && (a > 0 || b > 0) { XorBound(a / 2, b / 2, k - 1); }
  }

  lemma XorStep(a: nat, b: nat)
    ensures Xor(a, b) / 2 == Xor(a / 2, b / 2)
    ensures Xor(a, b) % 2 == (a + b) % 2
  {
  }

  lemma ParityUndo(a: nat, b: nat, x: nat)
    requires x % 2 == (a + b) % 2
    ensures (x + b) % 2 == a % 2
  {
  }

  lemma {:induction false} XorUndo(a: nat, b: nat)
    ensures Xor(Xor(a, b), b) == a
    decreases a + b
  {
    if a > 0 || b > 0 {
      var x := Xor(a, b);
      var y := Xor(x, b);
      XorUndo(a / 2, b / 2);
      XorStep(a, b);
      XorStep(x, b);
      ParityUndo(a, b, x);
      assert y / 2 == a / 2 && y % 2 == a % 2;
    }
  }

  lemma {:induction false} XorCommutes(a: nat, b: nat)
    ensures Xor(a, b) == Xor(b, a)
    decreases a + b
  {
    if a > 0 || b > 0 { XorCommutes(a / 2, b / 2); }
  }

  lemma {:induction false} XorZero(a: nat)
    ensures Xor(a, 0) == a
  {
    if a > 0 { XorZero(a / 2); }
  }

  /** Exclusive or with a second operand twice, from either side, gives back the first. */
  lemma Xor64Undo(a: u64, b: u64)
    ensures Xor64(Xor64(a, b), b) == a
    ensures Xor64(b, Xor64(b, a)) == a && Xor64(Xor64(b, a), b) == a
  {
    XorUndo(a, b);
    XorCommutes(a, b);
    XorCommutes(b, Xor(b, a));
  }

  /** a >> k, one bit at a time. */
  function Shr(a: nat, k: nat): (r: nat)
    ensures r <= a
  {
    if k == 0 then a else Shr(a / 2, k - 1)
  }

  lemma {:induction false} ShrIsDivision(a: nat, k: nat)
    ensures Shr(a, k) == a / Pow2(k)
  {
    if k > 0 {
      ShrIsDivision(a / 2, k - 1);
      DivTwice(a, Pow2(k - 1));
    }
  }

  lemma {:induction false} ShrTwice(a: nat, j: nat, k: nat)
    ensures Shr(Shr(a, j), k) == Shr(a, j + k)
  {
    if j > 0 { ShrTwice(a / 2, j - 1, k); }
  }

  lemma {:induction false} ShrOut(a: nat, j: nat, k: nat)
    requires j <= k && a < Pow2(j)
    ensures Shr(a, k) == 0
  {
    if k > 0 {
      if j > 0 { ShrOut(a / 2, j - 1, k - 1); } else { ShrOut(a / 2, 0, k - 1); }
    }
  }

  lemma {:induction false} XorShift(a: nat, b: nat, k: nat)
    ensures Shr(Xor(a, b), k) == Xor(Shr(a, k), Shr(b, k))
  {
    if k > 0 {
      XorStep(a, b);
      XorShift(a / 2, b / 2, k - 1);
    }
  }

  /** Each bit of an exclusive or is the sum of the two bits modulo 2. */
  lemma XorBit(a: nat, b: nat, k: nat)
    ensures (Xor(a, b) / Pow2(k)) % 2 == (a / Pow2(k) + b / Pow2(k)) % 2
  {
    XorShift(a, b, k);
    ShrIsDivision(Xor(a, b), k);
    ShrIsDivision(a, k);
    ShrIsDivision(b, k);
    XorStep(Shr(a, k), Shr(b, k));
    hide Xor, Shr, Pow2;
  }

  lemma DivTwice(a: nat, p: nat)
    requires p > 0
    ensures a / (2 * p) == (a / 2) / p
  {
    var h := a / 2;
    var q := h / p;
    assert h == q * p + h % p;
    assert a == q * (2 * p) + (2 * (h % p) + a % 2) by { Doubled(q, p); }
    DivModUnique(a, 2 * p, q, 2 * (h % p) + a % 2);
  }

  function Xor64(a: u64, b: u64): (x: u64)
    ensures x == Xor(a, b) && Xor(x, b) == a
  {
    WordSizes();
    XorBound(a, b, 64);
    XorUndo(a, b);
    Xor(a, b)
  }

  /** x ^ (x >> k). */
  function XorShiftRight(x: u64, k: nat): (y: u64)
    ensures y == Xor(x, Shr(x, k))
  {
    Xor64(x, Shr(x, k))
  }

  /** For a shift of at least half the word, x ^ (x >> k) is its own inverse. */
  lemma XorShiftRightUndo(x: u64, k: nat)
    requires 32 <= k
    ensures XorShiftRight(XorShiftRight(x, k), k) == x
  {
    var s := Shr(x, k);
    XorShift(x, s, k);
    ShrTwice(x, k, k);
    WordSizes();
    ShrOut(x, 64, k + k);
    XorZero(s);
    XorUndo(x, s);
  }

  // Little-endian bytes.

  function LeBytes(w: u64): (b: seq<u8>)
    ensures |b| == 8
  {
    LeDigits(w, 8)
  }

  function LeDigits(w: nat, n: nat): (b: seq<u8>)
    ensures |b| == n
  {
    if n == 0 then [] else [w % 256] + LeDigits(w / 256, n - 1)
  }

  /** Byte i of a word is its i-th digit to the base 256, least significant first. */
  lemma {:induction false} LeDigitAt(w: nat, n: nat, i: nat)
    requires i < n
    ensures LeDigits(w, n)[i] == (w / Pow2(8 * i)) % 256
  {
    if i > 0 {
      LeDigitAt(w / 256, n - 1, i - 1);
      DivByte(w, i - 1);
      hide Pow2;
    } else {
      assert Pow2(0) == 1;
    }
  }

  lemma DivByte(w: nat, i: nat)
    ensures (w / 256) / Pow2(8 * i) == w / Pow2(8 * i + 8)
  {
    ByteSize();
    Pow2Add(8, 8 * i);
    hide Pow2;
    ShrIsDivision(w, 8);
    ShrIsDivision(w, 8 * i + 8);
    ShrIsDivision(Shr(w, 8), 8 * i);
    ShrTwice(w, 8, 8 * i);
  }

  lemma LeByteAt(w: u64, i: nat)
    requires i < 8
    ensures LeBytes(w)[i] == (w / Pow2(8 * i)) % 256
  {
    LeDigitAt(w, 8, i);
  }

  function FromLe(b: seq<u8>): nat {
    if b == [] then 0 else b[0] + 256 * FromLe(b[1..])
  }

  lemma {:induction false} LeDigitsRoundTrip(w: nat, n: nat)
    requires w < Pow2(8 * n)
    ensures FromLe(LeDigits(w, n)) == w
  {
    if n > 0 {
      Pow2Add(8, 8 * (n - 1));
      assert Pow2(8) == 256;
      LeDigitsRoundTrip(w / 256, n - 1);
      assert LeDigits(w, n)[1..] == LeDigits(w / 256, n - 1);
    }
  }

  /** The eight bytes of a word determine the word. */
  lemma LeBytesRoundTrip(w: u64)
    ensures FromLe(LeBytes(w)) == w
  {
    WordSizes();
    LeDigitsRoundTrip(w, 8);
  }
}
