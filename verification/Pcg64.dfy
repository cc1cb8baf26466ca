/** The PCG-64 engine: a 128-bit linear congruential step with the DXSM output function. */
module Pcg {
  import opened Arith
  import opened Words
  import opened ByteStream

  const MULTIPLIER: u128 := 0x2360_ED05_1FC6_5DA4_4385_DF64_9FCC_F645

  function StepState(state: u128, inc: u128): u128 {
    (state * MULTIPLIER + inc) % TWO128
  }

  /** The state after n steps. */
  function StateAfter(n: nat, state: u128, inc: u128): u128 {
    if n == 0 then state else StepState(StateAfter(n - 1, state, inc), inc)
  }

  /** The DXSM output: `hi` and `lo` are the two halves, the low one with its last bit set. */
  function Output(state: u128): u64 {
    OutputOf(state / TWO64, LowWord(state))
  }

  /** `(state | 1) as u64`. */
  function LowWord(state: u128): (lo: u64)
    ensures lo % 2 == 1
  {
    var lo := state % TWO64;
    if lo % 2 == 0 then lo + 1 else lo
  }

  /** The output in plain arithmetic: two xor-shifts, a multiplication between them and one by the low half. */
  lemma OutputIs(state: u128)
    ensures var w := 0x1_0000_0000_0000_0000;
      var hi, lo := state / w, state % w;
      var a := Xor(hi, hi / 0x1_0000_0000);
      var b := (a * 0xDA94_2042_E4DD_58B5) % w;
      var c := Xor(b, b / 0x1_0000_0000_0000);
      Output(state) == (c * (if lo % 2 == 0 then lo + 1 else lo)) % w
  {
    ShiftSizes();
    var hi := state / TWO64;
    ShrIsDivision(hi, 32);
    var b := WrappingMul(XorShiftRight(hi, 32), 0xDA94_2042_E4DD_58B5);
    ShrIsDivision(b, 48);
    hide Xor, Pow2, Shr;
  }

  lemma ShiftSizes()
    ensures Pow2(32) == 0x1_0000_0000 && Pow2(48) == 0x1_0000_0000_0000
  {
    ByteSize();
    hide Pow2;
    Pow2Add(8, 8);
    Pow2Add(16, 16);
    Pow2Add(32, 16);
  }

  function OutputOf(hi: u64, lo: u64): u64 {
    var hi := XorShiftRight(hi, 32);
    var hi := WrappingMul(hi, 0xDA94_2042_E4DD_58B5);
    var hi := XorShiftRight(hi, 48);
    WrappingMul(hi, lo)
  }

  function Outputs(state: u128, inc: u128): nat -> u64 {
    n => Output(StateAfter(n, state, inc))
  }

  function SeedInc(seed: u64): (inc: u128)
    ensures inc % 2 == 1
  {
    2 * seed + 1
  }

  function SeedState(seed: u64): u128 {
    var inc := SeedInc(seed);
    StepState((StepState(0, inc) + seed) % TWO128, inc)
  }

  class Pcg64 {
    var state: u128
    var inc: u128

    constructor Seed(seed: u64)
      ensures state == SeedState(seed) && inc == SeedInc(seed)
      ensures inc == 2 * seed + 1
      ensures state == ((3 * seed + 1) * 0x2360_ED05_1FC6_5DA4_4385_DF64_9FCC_F645 + 2 * seed + 1)
                       % 0x1_0000_0000_0000_0000_0000_0000_0000_0000
    {
      state := 0;
      // (seed << 1) | 1 does not overflow 128 bits
      inc := 2 * seed + 1;
      new;
      Step();
      assert state == inc;
      state := (state + seed) % TWO128;
      assert state == 3 * seed + 1;
      Step();
    }

    method Step()
      modifies this`state
      ensures state == StepState(old(state), inc)
      ensures state == (old(state) * 0x2360_ED05_1FC6_5DA4_4385_DF64_9FCC_F645 + inc)
                       % 0x1_0000_0000_0000_0000_0000_0000_0000_0000
    {
      state := (state * MULTIPLIER + inc) % TWO128;
    }

    method NextU64() returns (r: u64)
      modifies this`state
      ensures r == Outputs(old(state), inc)(0)
      ensures state == StateAfter(1, old(state), inc)
      ensures r == Output(old(state)) && state == StepState(old(state), inc)
    {
      var s := state;
      Step();
      r := Output(s);
      assert StateAfter(0, s, inc) == s;
    }

    method FillBytes(dest: array<u8>)
      modifies this`state, dest
      ensures dest[..] == Fill(Outputs(old(state), inc), 0, dest.Length)
      ensures state == StateAfter(Consumed(dest.Length), old(state), inc)
    {
      hide StepState, Output, Outputs, Fill, LeBytes, StateAfter;
      ghost var start, outs := state, Outputs(state, inc);
      var i, done := 0, 0;
      Started(start, inc);
      assert dest[..0] == Fill(outs, 0, 0);
      while i + 8 <= dest.Length
        invariant i == 8 * done <= dest.Length
        invariant dest[..i] == Fill(outs, 0, i)
        invariant state == StateAfter(done, start, inc)
      {
        NextOutput(done, start, inc);
        FillNext(outs, 0, done, 8);
        var word := NextU64();
        CopyInto(dest, i, LeBytes(word)[..8]);
        i, done := i + 8, done + 1;
      }
      var rem := dest.Length - i;
      assert dest[..i + rem] == dest[..];
      if rem > 0 {
        NextOutput(done, start, inc);
        FillNext(outs, 0, done, rem);
        var word := NextU64();
        CopyInto(dest, i, LeBytes(word)[..rem]);
      }
    }
  }

  lemma Started(start: u128, inc: u128)
    ensures StateAfter(0, start, inc) == start
  {
  }

  /** The first output after `done` steps is output number `done`. */
  lemma NextOutput(done: nat, start: u128, inc: u128)
    ensures Outputs(StateAfter(done, start, inc), inc)(0) == Outputs(start, inc)(done)
    ensures StateAfter(1, StateAfter(done, start, inc), inc) == StateAfter(done + 1, start, inc)
  {
    hide StepState, Output;
    StateAfterAdd(done, 1, start, inc);
    StateAfterAdd(done, 0, start, inc);
  }

  // The period of the step.

  /** 1 + a + ... + a^(n-1). */
  function Geo(a: int, n: nat): int {
    if n == 0 then 0 else 1 + a * Geo(a, n - 1)
  }

  lemma {:induction false} GeoAdd(a: int, m: nat, n: nat)
    ensures Geo(a, m + n) == Geo(a, m) + Pow(a, m) * Geo(a, n)
  {
    if m > 0 {
      GeoAdd(a, m - 1, n);
      GeoUnfold(a, m + n);
      GeoUnfold(a, m);
      hide Geo, Pow;
      TimesSum(a, Geo(a, m - 1), Pow(a, m - 1), Geo(a, n));
    } else {
      assert Pow(a, 0) == 1;
    }
  }

  lemma GeoUnfold(a: int, n: nat)
    requires n > 0
    ensures Geo(a, n) == 1 + a * Geo(a, n - 1) && Pow(a, n) == a * Pow(a, n - 1)
  {
  }

  lemma TimesSum(a: int, x: int, p: int, g: int)
    ensures a * (x + p * g) == a * x + (a * p) * g
  {
    assert a * (x + p * g) == a * x + a * (p * g);
    assert a * (p * g) == (a * p) * g;
  }

  lemma {:induction false} PowMod4(a: int, n: nat)
    requires a % 4 == 1
    ensures Pow(a, n) % 4 == 1
  {
    if n > 0 {
      PowMod4(a, n - 1);
      GeoUnfold(a, n);
      hide Pow;
      OneMod4(a, Pow(a, n - 1));
    }
  }

  lemma OneMod4(a: int, p: int)
    requires a % 4 == 1 && p % 4 == 1
    ensures (a * p) % 4 == 1
  {
    var x, y := a / 4, p / 4;
    QuarterProduct(a, p, x);
    assert a * p == 4 * (x * p + y) + 1;
  }

  lemma QuarterProduct(a: int, p: int, x: int)
    requires a == 4 * x + 1
    ensures a * p == 4 * (x * p) + p
  {
  }

  lemma {:induction false} GeoParity(a: int, n: nat)
    requires a % 2 == 1
    ensures Geo(a, n) % 2 == n % 2
  {
    if n > 0 {
      GeoParity(a, n - 1);
      GeoUnfold(a, n);
      hide Geo;
      OddStepParity(a, Geo(a, n - 1), n - 1);
    }
  }

  lemma OddStepParity(a: int, g: int, n: int)
    requires a % 2 == 1 && g % 2 == n % 2
    ensures (1 + a * g) % 2 == (n + 1) % 2
  {
    HalfProduct(a, g, a / 2);
    var h := (a / 2) * g;
    assert 1 + a * g == 2 * h + g + 1;
  }

  lemma HalfProduct(a: int, g: int, x: int)
    requires a == 2 * x + 1
    ensures a * g == 2 * (x * g) + g
  {
  }

  /** For a multiplier that is 1 modulo 4, 2^k divides the geometric sum exactly when it divides n. */
  lemma {:induction false} GeoDivisible(a: int, k: nat, n: nat)
    requires a % 4 == 1
    ensures Geo(a, n) % Pow2(k) == 0 <==> n % Pow2(k) == 0
    decreases k
  {
    if k > 0 {
      var p := Pow2(k - 1);
      if n % 2 == 1 {
        GeoParity(a, n);
        OddNotDivisible(n, p);
        OddNotDivisible(Geo(a, n), p);
      } else {
        var m := n / 2;
        var c := GeoDouble(a, m);
        HalfDivisible(Geo(a, m) * c, p);
        HalfDivisible(m, p);
        OddFactor(k - 1, Geo(a, m), c);
        GeoDivisible(a, k - 1, m);
      }
    }
  }

  lemma GeoDouble(a: int, m: nat) returns (c: int)
    requires a % 4 == 1
    ensures c % 2 == 1
    ensures Geo(a, 2 * m) == 2 * (Geo(a, m) * c)
  {
    GeoAdd(a, m, m);
    PowMod4(a, m);
    hide Geo, Pow;
    var g, p := Geo(a, m), Pow(a, m);
    c := HalfOf(p);
    HalfSum(p, c, g);
    assert 2 * m == m + m;
  }

  lemma HalfOf(p: int) returns (c: int)
    requires p % 4 == 1
    ensures c % 2 == 1 && p == 2 * c - 1
  {
    c := (1 + p) / 2;
  }

  lemma HalfSum(p: int, c: int, g: int)
    requires p == 2 * c - 1
    ensures g + p * g == 2 * (g * c)
  {
  }

  lemma OddNotDivisible(n: int, p: int)
    requires n % 2 == 1 && p > 0
    ensures n % (2 * p) != 0
  {
    if n % (2 * p) == 0 {
      Exact(n, 2 * p);
      Doubled(n / (2 * p), p);
    }
  }

  lemma HalfDivisible(m: int, p: int)
    requires p > 0
    ensures (2 * m) % (2 * p) == 0 <==> m % p == 0
  {
    if m % p == 0 {
      Exact(m, p);
      Doubled(m / p, p);
      ModOfMultiple(m / p, 2 * p);
    }
    if (2 * m) % (2 * p) == 0 {
      var q := (2 * m) / (2 * p);
      Exact(2 * m, 2 * p);
      Doubled(q, p);
      ModOfMultiple(q, p);
    }
  }

  /** The state before any reduction modulo 2^128. */
  function Unreduced(a: int, c: int, n: nat, s: int): int {
    if n == 0 then s else a * Unreduced(a, c, n - 1, s) + c
  }

  lemma {:induction false} UnreducedClosed(a: int, c: int, n: nat, s: int)
    ensures Unreduced(a, c, n, s) - s == Geo(a, n) * ((a - 1) * s + c)
  {
    if n > 0 {
      UnreducedClosed(a, c, n - 1, s);
      AffineStep(a, c, s, Geo(a, n - 1), (a - 1) * s + c);
    }
  }

  lemma AffineStep(a: int, c: int, s: int, g: int, k: int)
    requires k == (a - 1) * s + c
    ensures a * (s + g * k) + c - s == (1 + a * g) * k
  {
    assert a * (s + g * k) == a * s + a * (g * k);
    assert a * (g * k) == (a * g) * k;
    assert (1 + a * g) * k == k + (a * g) * k;
    assert (a - 1) * s == a * s - s;
  }

  /** The unreduced sequence is back at its start modulo 2^k exactly when 2^k divides n. */
  lemma UnreducedReturns(a: int, c: int, n: nat, s: int, k: nat)
    requires a % 4 == 1 && c % 2 == 1
    ensures (Unreduced(a, c, n, s) - s) % Pow2(k) == 0 <==> n % Pow2(k) == 0
  {
    var f := (a - 1) * s + c;
    var h := (a - 1) / 2;
    assert f % 2 == 1 by { assert (2 * h) * s == 2 * (h * s); }
    UnreducedClosed(a, c, n, s);
    OddFactor(k, Geo(a, n), f);
    GeoDivisible(a, k, n);
  }

  lemma {:induction false} StateIsReduced(n: nat, state: u128, inc: u128)
    ensures StateAfter(n, state, inc) == Unreduced(MULTIPLIER, inc, n, state) % TWO128
  {
    if n > 0 {
      StateIsReduced(n - 1, state, inc);
      var u := Unreduced(MULTIPLIER, inc, n - 1, state);
      var q := u / TWO128;
      assert MULTIPLIER * u + inc == ((u % TWO128) * MULTIPLIER + inc) + (MULTIPLIER * q) * TWO128;
      ModShift((u % TWO128) * MULTIPLIER + inc, MULTIPLIER * q, TWO128);
    }
  }

  /** The step sequence returns to its state after n steps exactly when 2^128 divides n. */
  lemma Period(n: nat, state: u128, inc: u128)
    requires inc % 2 == 1
    ensures StateAfter(n, state, inc) == state <==> n % TWO128 == 0
  {
    hide Pow2, Unreduced, StateAfter;
    StateIsReduced(n, state, inc);
    SameRemainder(Unreduced(MULTIPLIER, inc, n, state), state, TWO128);
    WordSizes();
    UnreducedReturns(MULTIPLIER, inc, n, state, 128);
  }

  /** Every seed starts a state sequence of period exactly 2^128. */
  lemma SeededPeriod(seed: u64, n: nat)
    ensures StateAfter(n, SeedState(seed), SeedInc(seed)) == SeedState(seed) <==> n % TWO128 == 0
  {
    Period(n, SeedState(seed), SeedInc(seed));
  }

  lemma {:induction false} StateAfterAdd(m: nat, n: nat, state: u128, inc: u128)
    ensures StateAfter(m + n, state, inc) == StateAfter(n, StateAfter(m, state, inc), inc)
  {
    if n > 0 {
      StateAfterAdd(m, n - 1, state, inc);
    }
  }

  lemma StatesDiffer(i: nat, j: nat, state: u128, inc: u128)
    requires inc % 2 == 1 && i < j < TWO128
    ensures StateAfter(i, state, inc) != StateAfter(j, state, inc)
  {
    hide StateAfter;
    StateAfterAdd(i, j - i, state, inc);
    Period(j - i, StateAfter(i, state, inc), inc);
  }

  /** Within one period every state is visited, and only once. */
  lemma VisitsOnce(target: u128, state: u128, inc: u128) returns (n: nat)
    requires inc % 2 == 1
    ensures n < TWO128 && StateAfter(n, state, inc) == target
    ensures forall m: nat :: m < TWO128 && StateAfter(m, state, inc) == target ==> m == n
  {
    hide StateAfter;
    var visit: nat -> nat := i => StateAfter(i, state, inc);
    forall i: nat, j: nat | i < j < TWO128
      ensures visit(i) != visit(j)
    {
      StatesDiffer(i, j, state, inc);
    }
    InjectiveIsSurjective(TWO128, visit, target);
    n :| n < TWO128 && visit(n) == target;
    forall m: nat | m < TWO128 && StateAfter(m, state, inc) == target
      ensures m == n
    {
      assert visit(m) == visit(n);
    }
  }

  // Equidistribution of the output.

  /** The high half that produces `v` beside the low half `lo`: each stage of the output undone. */
  function HighFor(v: u64, lo: u64): u64
    requires lo % 2 == 1
  {
    WordSizes();
    var x := WrappingMul(v, OddInverse(lo, 64));
    var x := XorShiftRight(x, 48);
    var x := WrappingMul(x, OddInverse(0xDA94_2042_E4DD_58B5, 64));
    XorShiftRight(x, 32)
  }

  /** Beside a fixed low half, the output is a bijection of the high half. */
  lemma OutputBijective(hi: u64, lo: u64, v: u64)
    requires lo % 2 == 1
    ensures OutputOf(hi, lo) == v <==> hi == HighFor(v, lo)
  {
    WordSizes();
    var c: u64 := 0xDA94_2042_E4DD_58B5;
    var a := XorShiftRight(hi, 32);
    var b := WrappingMul(a, c);
    var d := XorShiftRight(b, 48);
    XorShiftRightUndo(hi, 32);
    MulBothWays(c, a, b);
    XorShiftRightUndo(b, 48);
    MulBothWays(lo, d, v);
    var d' := WrappingMul(v, OddInverse(lo, 64));
    var b' := XorShiftRight(d', 48);
    var a' := WrappingMul(b', OddInverse(c, 64));
    var hi' := XorShiftRight(a', 32);
    XorShiftRightUndo(d', 48);
    XorShiftRightUndo(a', 32);
    MulBothWays(c, a', b');
    MulBothWays(lo, d', v);
  }

  /**
   * Over one period the outputs are equidistributed: for every output value and every low
   * half of the state there is exactly one step, so each of the 2^64 values occurs 2^64 times.
   */
  lemma Equidistributed(state: u128, inc: u128, v: u64, low: u64) returns (n: nat)
    requires inc % 2 == 1
    ensures n < TWO128 && Emits(state, inc, n, v, low)
    ensures forall m: nat :: m < TWO128 && Emits(state, inc, m, v, low) ==> m == n
  {
    n := VisitsOnce(StateFor(v, low), state, inc);
    forall m: nat ensures Emits(state, inc, m, v, low) <==> StateAfter(m, state, inc) == StateFor(v, low) {
      OnlyState(StateAfter(m, state, inc), v, low);
    }
  }

  /** Step n of the sequence outputs v from a state whose low half is `low`. */
  predicate Emits(state: u128, inc: u128, n: nat, v: u64, low: u64) {
    var s := StateAfter(n, state, inc);
    Outputs(state, inc)(n) == v && s % TWO64 == low
  }

  function StateFor(v: u64, low: u64): u128 {
    HighFor(v, LowWord(low)) * TWO64 + low
  }

  lemma OnlyState(s: u128, v: u64, low: u64)
    ensures Output(s) == v && s % TWO64 == low <==> s == StateFor(v, low)
  {
    hide OutputOf, HighFor;
    OutputBijective(s / TWO64, LowWord(low), v);
    DivModUnique(StateFor(v, low), TWO64, HighFor(v, LowWord(low)), low);
  }

  // Splitting a fill in the middle of an output.

  /** Two requests in a row give what one longer request gives, from every point of the stream. */
  ghost predicate SplitsAlong(s: nat -> u64, n: nat, m: nat) {
    forall pos: nat :: Fill(s, pos, n) + Fill(s, pos + Consumed(n), m) == Fill(s, pos, n + m)
  }

  /**
   * On the stream of every engine, from every seed: fills compose all along the stream exactly when the
   * first one ends on an output boundary or the second is empty.
   */
  lemma EngineSplitsExactly(state: u128, inc: u128, n: nat, m: nat)
    requires inc % 2 == 1
    ensures SplitsAlong(Outputs(state, inc), n, m) <==> n % 8 == 0 || m == 0
  {
    hide Fill, Outputs, SplitsAlong;
    if n % 8 == 0 || m == 0 {
      StreamsSplit(Outputs(state, inc), n, m);
    } else {
      EngineDoesNotSplit(state, inc, n, m);
    }
  }

  lemma StreamsSplit(s: nat -> u64, n: nat, m: nat)
    requires n % 8 == 0 || m == 0
    ensures SplitsAlong(s, n, m)
  {
    hide Fill;
    forall pos: nat ensures Fill(s, pos, n) + Fill(s, pos + Consumed(n), m) == Fill(s, pos, n + m) {
      FillSplitExactly(pos, n, m);
    }
  }

  lemma EngineDoesNotSplit(state: u128, inc: u128, n: nat, m: nat)
    requires inc % 2 == 1 && n % 8 != 0 && m > 0
    ensures !SplitsAlong(Outputs(state, inc), n, m)
  {
    hide Fill, StateAfter, LeBytes, StepState, Output;
    var outs, k := Outputs(state, inc), n / 8;
    var bad := UnequalBytes(inc, n % 8);
    var pos := VisitsOnce(bad, StateAfter(k, state, inc), inc);
    StateAfterAdd(k, pos, state, inc);
    StateAfterAdd(k + pos, 1, state, inc);
    OneStep(bad, inc);
    assert outs(pos + k) == Output(bad) && outs(pos + k + 1) == Output(StepState(bad, inc));
    hide Outputs;
    if SplitsAlong(outs, n, m) { SplitsAt(outs, pos, n, m); }
  }

  lemma OneStep(s: u128, inc: u128)
    ensures StateAfter(1, s, inc) == StepState(s, inc)
  {
    assert StateAfter(0, s, inc) == s;
  }

  /** What a composed fill says of the two outputs at the split. */
  lemma SplitsAt(s: nat -> u64, pos: nat, n: nat, m: nat)
    requires n % 8 != 0 && m > 0
    requires Fill(s, pos, n) + Fill(s, pos + Consumed(n), m) == Fill(s, pos, n + m)
    ensures LeBytes(s(pos + n / 8))[n % 8] == LeBytes(s(pos + n / 8 + 1))[0]
  {
    FillAt(s, pos, n + m, n);
    FillAt(s, pos + Consumed(n), m, 0);
    assert (Fill(s, pos, n) + Fill(s, pos + Consumed(n), m))[n] == Fill(s, pos + Consumed(n), m)[0];
  }

  /** For every increment and byte there is a state whose output differs there from the first byte of the next output. */
  lemma UnequalBytes(inc: u128, j: nat) returns (s: u128)
    requires inc % 2 == 1 && j < 8
    ensures LeBytes(Output(s))[j] != LeBytes(Output(StepState(s, inc)))[0]
  {
    hide LeBytes, StepState, Output;
    var t := LowBytesDiffer();
    s := Predecessor(t, inc);
    EvenPair(s, inc);
    if LeBytes(Output(s))[j] == LeBytes(Output(StepState(s, inc)))[0] {
      FirstByte(Output(t));
      FirstByte(Output((t + MULTIPLIER) % TWO128));
      s := s + 1;
    }
  }

  lemma FirstByte(w: u64)
    ensures LeBytes(w)[0] == w % 256
  {
  }

  /** Steps are onto: the period leads back to every state. */
  lemma Predecessor(t: u128, inc: u128) returns (s: u128)
    requires inc % 2 == 1
    ensures StepState(s, inc) == t
  {
    hide StepState;
    s := StateAfter(TWO128 - 1, t, inc);
    Period(TWO128, t, inc);
  }

  /** The state before an odd one is even; with its last bit set it has the same output, and steps one multiplier further. */
  lemma EvenPair(s: u128, inc: u128)
    requires inc % 2 == 1 && StepState(s, inc) % 2 == 1
    ensures s + 1 < TWO128 && Output(s + 1) == Output(s)
    ensures StepState(s + 1, inc) == (StepState(s, inc) + MULTIPLIER) % TWO128
  {
    hide OutputOf, StepState;
    assert s % 2 == 0 by { if s % 2 == 1 { OddStep(s, inc); } }
    assert (s + 1) / TWO64 == s / TWO64 && LowWord(s + 1) == LowWord(s);
    StepAddend(s, inc);
  }

  lemma OddStep(s: u128, inc: u128)
    requires inc % 2 == 1 && s % 2 == 1
    ensures StepState(s, inc) % 2 == 0
  {
    OddTimesOdd(s, MULTIPLIER);
    var x := s * MULTIPLIER + inc;
    assert x % 2 == 0;
  }

  lemma StepAddend(s: u128, inc: u128)
    requires s + 1 < TWO128
    ensures StepState(s + 1, inc) == (StepState(s, inc) + MULTIPLIER) % TWO128
  {
    var x := s * MULTIPLIER + inc;
    assert (s + 1) * MULTIPLIER + inc == x + MULTIPLIER;
    ModAddend(x, MULTIPLIER);
  }

  lemma ModAddend(x: nat, y: nat)
    ensures (x + y) % TWO128 == (x % TWO128 + y) % TWO128
  {
  }

  const HIGH_HALF: u64 := 0x2360_ED05_1FC6_5DA4
  const LOW_HALF: u64 := 0x4385_DF64_9FCC_F645

  /** The high half that the multiplier's high half brings to `next`. */
  function HighBefore(next: u64): (hi: u64)
    ensures (hi + HIGH_HALF) % TWO64 == next
  {
    (next + (TWO64 - HIGH_HALF)) % TWO64
  }

  /** Some odd state and the state one multiplier further have outputs with different low bytes. */
  lemma LowBytesDiffer() returns (t: u128)
    ensures t % 2 == 1 && Output(t) % 256 != Output((t + MULTIPLIER) % TWO128) % 256
  {
    hide WrappingMul, Output, OutputOf, HighFor, HighBefore;
    var one := HighFor(1, 1);
    OutputBijective(one, 1, 1);
    var hi := HighBefore(one);
    var t1 := FurtherScaled(hi, one, 1);
    var t3 := FurtherScaled(hi, one, 3);
    BytesClash(OutputOf(hi, 1));
    t := t1;
    if Output(t1) % 256 == Output((t1 + MULTIPLIER) % TWO128) % 256 { t := t3; }
  }

  /** No word has both the low byte that one target asks for and a third of the other's. */
  lemma BytesClash(x: u64)
    ensures WrappingMul(x, 1) % 256 != WrappingMul(1, LOW_HALF + 2) % 256
         || WrappingMul(x, 3) % 256 != WrappingMul(1, LOW_HALF + 4) % 256
  {
  }

  /** One multiplier further from a state with a small odd low half. */
  lemma Further(hi: u64, next: u64, low: nat) returns (t: u128)
    requires low == 1 || low == 3
    requires hi == HighBefore(next)
    ensures t % 2 == 1 && Output(t) == OutputOf(hi, low)
    ensures Output((t + MULTIPLIER) % TWO128) == OutputOf(next, LOW_HALF + low + 1)
  {
    hide OutputOf, Output, HighBefore;
    t := hi * TWO64 + low;
    assert t % 2 == 1;
    FurtherState(hi, next, low);
    OutputOfHalves(hi, low);
    OutputOfHalves(next, LOW_HALF + low);
    LowWords(low);
    hide LowWord;
  }

  lemma LowWords(low: nat)
    requires low == 1 || low == 3
    ensures LowWord(low) == low && LowWord(LOW_HALF + low) == LOW_HALF + low + 1
  {
  }

  lemma FurtherState(hi: u64, next: u64, low: nat)
    requires low == 1 || low == 3
    requires hi == HighBefore(next)
    ensures (hi * TWO64 + low + MULTIPLIER) % TWO128 == next * TWO64 + (LOW_HALF + low)
  {
    assert MULTIPLIER == HIGH_HALF * TWO64 + LOW_HALF;
    assert hi + HIGH_HALF == next || hi + HIGH_HALF == next + TWO64;
    hide HighBefore;
  }

  lemma OutputOfHalves(hi: u64, low: u64)
    ensures hi * TWO64 + low < TWO128
    ensures Output(hi * TWO64 + low) == OutputOf(hi, LowWord(low))
  {
    hide OutputOf;
    var s := hi * TWO64 + low;
    assert s / TWO64 == hi && s % TWO64 == low;
  }

  lemma FurtherScaled(hi: u64, next: u64, low: nat) returns (t: u128)
    requires low == 1 || low == 3
    requires hi == HighBefore(next) && OutputOf(next, 1) == 1
    ensures t % 2 == 1 && Output(t) == WrappingMul(OutputOf(hi, 1), low)
    ensures Output((t + MULTIPLIER) % TWO128) == WrappingMul(1, LOW_HALF + low + 1)
  {
    hide OutputOf, WrappingMul, Output, HighBefore;
    t := Further(hi, next, low);
    Scaled(hi, low);
    Scaled(next, LOW_HALF + low + 1);
  }

  /** The low half only scales the mixed high half. */
  lemma Scaled(hi: u64, low: u64)
    requires low % 2 == 1
    ensures OutputOf(hi, low) == WrappingMul(OutputOf(hi, 1), low)
  {
    hide XorShiftRight, WrappingMul;
    var mixed := XorShiftRight(WrappingMul(XorShiftRight(hi, 32), 0xDA94_2042_E4DD_58B5), 48);
    TimesOne(mixed);
  }

  lemma TimesOne(x: u64)
    ensures WrappingMul(x, 1) == x
  {
  }
}
