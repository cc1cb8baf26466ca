/** The Philox 4x64 counter-based engine. */
module Philox {
  import opened Arith
  import opened Words
  import opened ByteStream

  const M0: u64 := 0xD2E7470EE14C6C93
  const M1: u64 := 0xCA5A826395121157
  const BUMP0: u64 := 0x9E3779B97F4A7C15
  const BUMP1: u64 := 0xBB67AE8584CCA73B

  datatype Quad = Quad(w0: u64, w1: u64, w2: u64, w3: u64) {
    function Word(i: nat): u64
      requires i < 4
    {
      if i == 0 then w0 else if i == 1 then w1 else if i == 2 then w2 else w3
    }
  }

  datatype Key = Key(k0: u64, k1: u64) {
    function Bumped(): Key {
      Key(WrappingAdd(k0, BUMP0), WrappingAdd(k1, BUMP1))
    }
  }

  lemma ProductFits(a: u64, b: u64)
    ensures a * b < TWO64 * TWO64
  {
    MulMonotone(a, TWO64 - 1, b);
  }

  /** High and low words of the 128-bit product. */
  function Mul128(a: u64, b: u64): (r: (u64, u64))
    ensures r.0 * TWO64 + r.1 == a * b
  {
    ProductFits(a, b);
    var product := a * b;
    (product / TWO64, product % TWO64)
  }

  function Round(c: Quad, k: Key): Quad {
    var (hi0, lo0) := Mul128(M0, c.w0);
    var (hi1, lo1) := Mul128(M1, c.w2);
    Quad(Xor64(Xor64(hi1, c.w1), k.k0), lo1, Xor64(Xor64(hi0, c.w3), k.k1), lo0)
  }

  function Rounds(x: Quad, k: Key, n: nat): Quad
    decreases n
  {
    if n == 0 then x else Rounds(Round(x, k), k.Bumped(), n - 1)
  }

  /** The block for a counter. */
  function Block(key: Key, counter: Quad): Quad {
    Rounds(counter, key, 10)
  }

  function Advance(c: Quad): Quad {
    var w0 := WrappingAdd(c.w0, 1);
    Quad(w0, if w0 == 0 then WrappingAdd(c.w1, 1) else c.w1, c.w2, c.w3)
  }

  /** The counter after n increments from zero: two words, wrapping. */
  function CounterAt(n: nat): Quad {
    Quad(n % TWO64, (n / TWO64) % TWO64, 0, 0)
  }

  function SeedKey(seed: u64): Key {
    Key(seed, WrappingMul(seed, BUMP0))
  }

  /** Output number n of a freshly seeded engine. */
  function Outputs(key: Key): nat -> u64 {
    n => Block(key, CounterAt(n / 4)).Word(n % 4)
  }

  class Philox4x64 {
    var counter: Quad
    var key: Key
    var buffer: Quad
    var bufferPos: nat
    /** How many outputs have been drawn since seeding. */
    ghost var drawn: nat

    ghost predicate Valid()
      reads this
    {
      && bufferPos <= 4 && bufferPos <= drawn && (drawn - bufferPos) % 4 == 0
      && buffer == Block(key, CounterAt((drawn - bufferPos) / 4))
      && counter == CounterAt((drawn - bufferPos) / 4 + 1)
    }

    constructor Seed(seed: u64)
      ensures Valid() && key == SeedKey(seed) && drawn == 0
      ensures key == Key(seed, (seed * 0x9E37_79B9_7F4A_7C15) % 0x1_0000_0000_0000_0000)
    {
      hide Block, CounterAt, Advance;
      counter := Quad(0, 0, 0, 0);
      key := Key(seed, WrappingMul(seed, BUMP0));
      buffer := Quad(0, 0, 0, 0);
      bufferPos := 4;
      drawn := 0;
      new;
      CounterStep(0);
      Generate();
    }

    method Generate()
      modifies this`counter, this`buffer, this`bufferPos
      ensures buffer == Block(key, old(counter)) && bufferPos == 0
      ensures counter == Advance(old(counter))
      ensures counter.w0 == (old(counter.w0) + 1) % TWO64 && counter.w2 == old(counter.w2) && counter.w3 == old(counter.w3)
      ensures counter.w1 == (old(counter.w1) + if counter.w0 == 0 then 1 else 0) % TWO64
    {
      hide Round, Key.Bumped;
      var x, k := counter, key;
      for i := 0 to 10
        invariant Rounds(x, k, 10 - i) == Rounds(counter, key, 10)
        invariant counter == old(counter)
      {
        x := Round(x, k);
        k := k.Bumped();
      }
      buffer := x;
      bufferPos := 0;
      hide Rounds, Block;
      counter := counter.(w0 := WrappingAdd(counter.w0, 1));
      if counter.w0 == 0 {
        counter := counter.(w1 := WrappingAdd(counter.w1, 1));
      }
    }

    method NextU64() returns (r: u64)
      requires Valid()
      modifies this
      ensures Valid() && key == old(key) && drawn == old(drawn) + 1
      ensures r == Outputs(key)(old(drawn))
    {
      hide Block, CounterAt;
      if bufferPos >= 4 {
        CounterStep((drawn - 4) / 4 + 1);
        Generate();
      }
      r := buffer.Word(bufferPos);
      assert drawn / 4 == (drawn - bufferPos) / 4 && drawn % 4 == bufferPos;
      bufferPos := bufferPos + 1;
      drawn := drawn + 1;
    }

    method FillBytes(dest: array<u8>)
      requires Valid()
      modifies this, dest
      ensures Valid() && key == old(key) && drawn == old(drawn) + Consumed(dest.Length)
      ensures dest[..] == Fill(Outputs(key), old(drawn), dest.Length)
    {
      hide Outputs, Valid, Fill, LeBytes;
      ghost var start, outs := drawn, Outputs(key);
      var i, done := 0, 0;
      assert dest[..0] == Fill(outs, start, 0);
      while i + 8 <= dest.Length
        invariant i == 8 * done <= dest.Length
        invariant Valid() && key == old(key) && drawn == start + done
        invariant dest[..i] == Fill(outs, start, i)
      {
        FillNext(outs, start, done, 8);
        var word := NextU64();
        CopyInto(dest, i, LeBytes(word)[..8]);
        i, done := i + 8, done + 1;
      }
      var rem := dest.Length - i;
      assert dest[..i + rem] == dest[..];
      if rem > 0 {
        FillNext(outs, start, done, rem);
        var word := NextU64();
        CopyInto(dest, i, LeBytes(word)[..rem]);
      }
    }
  }

  lemma CounterStep(n: nat)
    ensures Advance(CounterAt(n)) == CounterAt(n + 1)
    ensures CounterAt(0) == Quad(0, 0, 0, 0)
  {
    NextWords(n);
    hide WrappingAdd;
  }

  lemma NextWords(n: nat)
    ensures (n + 1) % TWO64 == WrappingAdd(n % TWO64, 1)
    ensures (n + 1) / TWO64 == n / TWO64 + (if (n + 1) % TWO64 == 0 then 1 else 0)
    ensures (n / TWO64 + 1) % TWO64 == WrappingAdd((n / TWO64) % TWO64, 1)
  {
  }

  // The block in plain arithmetic.

  /** A round: two wide products, their high words mixed with the other counter words and the key. */
  lemma RoundIs(c: Quad, k: Key)
    ensures var w := 0x1_0000_0000_0000_0000;
      var p0, p1 := 0xD2E7_470E_E14C_6C93 * c.w0, 0xCA5A_8263_9512_1157 * c.w2;
      var y := Round(c, k);
      && y.w0 == Xor(Xor(p1 / w, c.w1), k.k0) && y.w1 == p1 % w
      && y.w2 == Xor(Xor(p0 / w, c.w3), k.k1) && y.w3 == p0 % w
  {
    hide Xor;
  }

  /** A block is ten rounds; round i adds i times the two constants to the two key words. */
  lemma BlockIsTenRounds(key: Key, counter: Quad) returns (xs: seq<Quad>)
    ensures |xs| == 11 && xs[0] == counter && xs[10] == Block(key, counter)
    ensures forall i: nat :: i < 10 ==>
      xs[i + 1] == Round(xs[i], Key((key.k0 + i * 0x9E37_79B9_7F4A_7C15) % 0x1_0000_0000_0000_0000,
                                    (key.k1 + i * 0xBB67_AE85_84CC_A73B) % 0x1_0000_0000_0000_0000))
  {
    xs := ScheduledRounds(key, counter);
    hide Round, Block;
    forall i: nat { KeyWords(key, i); }
  }

  lemma KeyWords(key: Key, i: nat)
    ensures KeyAt(key, i) == Key((key.k0 + i * 0x9E37_79B9_7F4A_7C15) % 0x1_0000_0000_0000_0000,
                                 (key.k1 + i * 0xBB67_AE85_84CC_A73B) % 0x1_0000_0000_0000_0000)
  {
  }

  lemma ScheduledRounds(key: Key, counter: Quad) returns (xs: seq<Quad>)
    ensures |xs| == 11 && xs[0] == counter && xs[10] == Block(key, counter)
    ensures forall i: nat :: i < 10 ==> xs[i + 1] == Round(xs[i], KeyAt(key, i))
  {
    hide Round, KeyAt, Key.Bumped;
    var x, k := counter, key;
    xs := [x];
    FirstKey(key);
    for i := 0 to 10
      invariant |xs| == i + 1 && xs[0] == counter && xs[i] == x && k == KeyAt(key, i)
      invariant Rounds(x, k, 10 - i) == Block(key, counter)
      invariant forall j: nat :: j < i ==> xs[j + 1] == Round(xs[j], KeyAt(key, j))
    {
      x := Round(x, k);
      BumpedNext(key, i);
      k := k.Bumped();
      xs := xs + [x];
    }
  }

  function KeyAt(key: Key, i: nat): Key {
    Key((key.k0 + i * BUMP0) % TWO64, (key.k1 + i * BUMP1) % TWO64)
  }

  lemma BumpedNext(key: Key, i: nat)
    ensures KeyAt(key, i).Bumped() == KeyAt(key, i + 1)
  {
    BumpedWord(key.k0, i, BUMP0);
    BumpedWord(key.k1, i, BUMP1);
  }

  lemma BumpedWord(k: u64, i: nat, bump: u64)
    ensures k + i * bump >= 0
    ensures WrappingAdd((k + i * bump) % TWO64, bump) == (k + (i + 1) * bump) % TWO64
  {
    MulMonotone(0, i, bump);
    var x := k + i * bump;
    assert k + (i + 1) * bump == x + bump;
    SumRemainder(x, bump);
  }

  lemma SumRemainder(x: nat, y: nat)
    ensures (x % TWO64 + y) % TWO64 == (x + y) % TWO64
  {
  }

  lemma FirstKey(key: Key)
    ensures KeyAt(key, 0) == key
  {
  }

  /** Outputs 4b to 4b + 3 are the words, in order, of the block whose counter is b. */
  lemma OutputWords(key: Key, b: nat)
    ensures var block := Block(key, Quad(b % TWO64, (b / TWO64) % TWO64, 0, 0));
      && Outputs(key)(4 * b) == block.w0 && Outputs(key)(4 * b + 1) == block.w1
      && Outputs(key)(4 * b + 2) == block.w2 && Outputs(key)(4 * b + 3) == block.w3
  {
    hide Block;
    QuarterOf(b, 0);
    QuarterOf(b, 1);
    QuarterOf(b, 2);
    QuarterOf(b, 3);
    assert CounterAt(b) == Quad(b % TWO64, (b / TWO64) % TWO64, 0, 0);
    hide CounterAt;
  }

  lemma QuarterOf(b: nat, i: nat)
    requires i < 4
    ensures (4 * b + i) / 4 == b && (4 * b + i) % 4 == i
  {
  }

  // The rounds are a bijection.

  function UndoRound(y: Quad, k: Key): Quad {
    WordSizes();
    var c0 := WrappingMul(y.w3, OddInverse(M0, 64));
    var c2 := WrappingMul(y.w1, OddInverse(M1, 64));
    Quad(c0, Xor64(Mul128(M1, c2).0, Xor64(y.w0, k.k0)),
         c2, Xor64(Mul128(M0, c0).0, Xor64(y.w2, k.k1)))
  }

  lemma LowWordUndo(m: u64, x: u64, y: u64)
    requires m % 2 == 1
    ensures OddInverse(m, 64) < TWO64
    ensures Mul128(m, x).1 == y <==> x == WrappingMul(y, OddInverse(m, 64))
  {
    MulBothWays(m, x, y);
    assert m * x == x * m;
    DivModUnique(m * x, TWO64, Mul128(m, x).0, Mul128(m, x).1);
  }

  /** hi ^ c ^ k == y exactly when c == hi ^ (y ^ k). */
  lemma MixUndo(hi: u64, c: u64, k: u64, y: u64)
    ensures Xor64(Xor64(hi, c), k) == y <==> c == Xor64(hi, Xor64(y, k))
  {
    var t := Xor64(hi, c);
    Xor64Undo(t, k);
    Xor64Undo(y, k);
    Xor64Undo(c, hi);
    Xor64Undo(Xor64(y, k), hi);
  }

  lemma RoundBijective(x: Quad, k: Key, y: Quad)
    ensures Round(x, k) == y <==> x == UndoRound(y, k)
  {
    hide Mul128, Xor64, WrappingMul, OddInverse;
    WordSizes();
    LowWordUndo(M0, x.w0, y.w3);
    LowWordUndo(M1, x.w2, y.w1);
    MixUndo(Mul128(M1, x.w2).0, x.w1, k.k0, y.w0);
    MixUndo(Mul128(M0, x.w0).0, x.w3, k.k1, y.w2);
  }

  function UndoRounds(y: Quad, k: Key, n: nat): Quad
    decreases n
  {
    if n == 0 then y else UndoRound(UndoRounds(y, k.Bumped(), n - 1), k)
  }

  lemma {:induction false} RoundsBijective(x: Quad, k: Key, n: nat, y: Quad)
    ensures Rounds(x, k, n) == y <==> x == UndoRounds(y, k, n)
    decreases n
  {
    hide Round, UndoRound;
    if n > 0 {
      RoundsBijective(Round(x, k), k.Bumped(), n - 1, y);
      RoundBijective(x, k, UndoRounds(y, k.Bumped(), n - 1));
    }
  }

  /** For a fixed key the ten rounds are a bijection on counters: each block has exactly one counter. */
  lemma BlockBijective(key: Key, counter: Quad, block: Quad)
    ensures Block(key, counter) == block <==> counter == UndoRounds(block, key, 10)
  {
    RoundsBijective(counter, key, 10, block);
  }

  /** Blocks i and j of one engine coincide exactly when i and j agree modulo 2^128. */
  lemma BlocksRepeat(key: Key, i: nat, j: nat)
    ensures Block(key, CounterAt(i)) == Block(key, CounterAt(j)) <==> i % TWO128 == j % TWO128
  {
    hide Block, CounterAt;
    var b := Block(key, CounterAt(j));
    BlockBijective(key, CounterAt(i), b);
    BlockBijective(key, CounterAt(j), b);
    CounterValue(i, j);
  }

  lemma CounterValue(i: nat, j: nat)
    ensures CounterAt(i) == CounterAt(j) <==> i % TWO128 == j % TWO128
  {
    TwoWords(i);
    TwoWords(j);
  }

  lemma TwoWords(n: nat)
    ensures n % TWO128 == ((n / TWO64) % TWO64) * TWO64 + n % TWO64
  {
    var q := n / TWO64;
    DivModUnique(n, TWO128, q / TWO64, (q % TWO64) * TWO64 + n % TWO64);
  }
}
