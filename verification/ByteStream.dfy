/** What `fill_bytes` writes, for any engine seen as a stream of 64-bit outputs. */
module ByteStream {
  import opened Words

  /** The n bytes written when the next output is number `pos`: whole outputs little-endian, then part of one. */
  function Fill(s: nat -> u64, pos: nat, n: nat): (b: seq<u8>)
    ensures |b| == n
    decreases n
  {
    if n == 0 then []
    else if n < 8 then LeBytes(s(pos))[..n]
    else LeBytes(s(pos)) + Fill(s, pos + 1, n - 8)
  }

  /** Outputs consumed by a request for n bytes. */
  function Consumed(n: nat): nat {
    (n + 7) / 8
  }

  /** Byte i comes from output i / 8, little end first, whatever the request length. */
  lemma {:induction false} FillAt(s: nat -> u64, pos: nat, n: nat, i: nat)
    requires i < n
    ensures Fill(s, pos, n)[i] == LeBytes(s(pos + i / 8))[i % 8]
    decreases n
  {
    if n >= 8 && i >= 8 {
      FillAt(s, pos + 1, n - 8, i - 8);
    }
  }

  lemma FillSplitAligned(s: nat -> u64, pos: nat, a: nat, m: nat)
    ensures Fill(s, pos, 8 * a) + Fill(s, pos + a, m) == Fill(s, pos, 8 * a + m)
  {
    hide Fill, LeBytes;
    var whole := Fill(s, pos, 8 * a + m);
    var parts := Fill(s, pos, 8 * a) + Fill(s, pos + a, m);
    forall i: nat | i < 8 * a + m
      ensures parts[i] == whole[i]
    {
      FillAt(s, pos, 8 * a + m, i);
      if i < 8 * a {
        FillAt(s, pos, 8 * a, i);
      } else {
        FillAt(s, pos + a, m, i - 8 * a);
        assert (i - 8 * a) / 8 + a == i / 8;
      }
    }
  }

  /** Two requests in a row give every stream's bytes like one longer request. */
  ghost predicate Splits(pos: nat, n: nat, m: nat) {
    forall s: nat -> u64 :: Fill(s, pos, n) + Fill(s, pos + Consumed(n), m) == Fill(s, pos, n + m)
  }

  /** Requests compose exactly when the first one ends on an output boundary (or the second is empty). */
  lemma FillSplitExactly(pos: nat, n: nat, m: nat)
    ensures Splits(pos, n, m) <==> n % 8 == 0 || m == 0
  {
    if n % 8 == 0 {
      forall s: nat -> u64
        ensures Fill(s, pos, n) + Fill(s, pos + Consumed(n), m) == Fill(s, pos, n + m)
      {
        FillSplitAligned(s, pos, n / 8, m);
      }
    } else if m == 0 {
      forall s: nat -> u64
        ensures Fill(s, pos, n) + Fill(s, pos + Consumed(n), m) == Fill(s, pos, n + m)
      {
        assert Fill(s, pos + Consumed(n), m) == [];
      }
    } else {
      DoesNotSplit(pos, n, m);
    }
  }

  lemma DoesNotSplit(pos: nat, n: nat, m: nat)
    requires n % 8 != 0 && m > 0
    ensures !Splits(pos, n, m)
  {
    var s: nat -> u64 := i => if i == pos + n / 8 then 0 else 1;
    var first, second := Fill(s, pos, n), Fill(s, pos + Consumed(n), m);
    FillAt(s, pos + Consumed(n), m, 0);
    FillAt(s, pos, n + m, n);
    LowBytes(n % 8);
    assert (first + second)[n] == 1 && Fill(s, pos, n + m)[n] == 0;
  }

  /** `copy_from_slice` into the bytes of `dest` from position `at`. */
  method CopyInto(dest: array<u8>, at: nat, src: seq<u8>)
    requires at + |src| <= dest.Length
    modifies dest
    ensures dest[..at + |src|] == old(dest[..at]) + src
    ensures dest[at + |src|..] == old(dest[at + |src|..])
  {
    forall j | 0 <= j < |src| { dest[at + j] := src[j]; }
  }

  /** After `done` outputs, the first bytes of the next one continue the fill. */
  lemma FillNext(s: nat -> u64, pos: nat, done: nat, rem: nat)
    requires rem <= 8
    ensures Fill(s, pos, 8 * done) + LeBytes(s(pos + done))[..rem] == Fill(s, pos, 8 * done + rem)
  {
    FillSplitAligned(s, pos, done, rem);
    assert Fill(s, pos + done, rem) == LeBytes(s(pos + done))[..rem] by {
      if rem == 8 { assert Fill(s, pos + done + 1, 0) == []; }
    }
  }

  lemma LowBytes(i: nat)
    requires i < 8
    ensures LeBytes(0)[i] == 0 && LeBytes(1)[0] == 1
  {
    assert LeBytes(0) == [0, 0, 0, 0, 0, 0, 0, 0];
  }
}
