/** Sums over sequences. */
module Sums {
  function Sum<T>(s: seq<T>, f: T -> int): int {
    if s == [] then 0 else f(s[0]) + Sum(s[1..], f)
  }

  lemma {:induction false} SumAgrees<T(!new)>(s: seq<T>, f: T -> int, g: T -> int)
    requires forall x <- s :: f(x) == g(x)
    ensures Sum(s, f) == Sum(s, g)
  {
    if s != [] {
      assert s[0] in s;
      SumAgrees(s[1..], f, g);
    }
  }

  lemma {:induction false} SumUpdate<T>(s: seq<T>, f: T -> int, k: nat, x: T)
    requires k < |s|
    ensures Sum(s[k := x], f) == Sum(s, f) - f(s[k]) + f(x)
  {
    if k > 0 {
      SumUpdate(s[1..], f, k - 1, x);
      assert s[k := x][1..] == s[1..][k - 1 := x];
    } else {
      assert s[0 := x][1..] == s[1..];
    }
  }

  lemma {:induction false} SumAppend<T>(s: seq<T>, f: T -> int, x: T)
    ensures Sum(s + [x], f) == Sum(s, f) + f(x)
  {
    if s == [] {
      assert (s + [x])[1..] == [];
    } else {
      SumAppend(s[1..], f, x);
      assert (s + [x])[1..] == s[1..] + [x];
    }
  }

  lemma {:induction false} SumRemove<T>(s: seq<T>, f: T -> int, k: nat)
    requires k < |s|
    ensures Sum(s[..k] + s[k + 1..], f) == Sum(s, f) - f(s[k])
  {
    if k == 0 {
      assert s[..0] + s[1..] == s[1..];
    } else {
      SumRemove(s[1..], f, k - 1);
      assert (s[..k] + s[k + 1..])[1..] == s[1..][..k - 1] + s[1..][k..];
    }
  }

  lemma {:induction false} SumNonNegative<T>(s: seq<T>, f: T -> int)
    requires forall x <- s :: f(x) >= 0
    ensures Sum(s, f) >= 0
    ensures (forall x <- s :: f(x) == 0) ==> Sum(s, f) == 0
  {
    if s != [] {
      assert s[0] in s;
      SumNonNegative(s[1..], f);
    }
  }

  lemma {:induction false} TermBelowSum<T(!new)>(s: seq<T>, f: T -> int, x: T)
    requires x in s && forall y <- s :: f(y) >= 0
    ensures f(x) <= Sum(s, f)
  {
    SumNonNegative(s[1..], f);
    if x != s[0] { TermBelowSum(s[1..], f, x); }
  }

  // Sums over the values of a map.

  ghost function MapSum<V>(m: map<nat, V>, f: V -> int): int {
    if m == map[] then 0
    else
      var k :| k in m;
      f(m[k]) + MapSum(m - {k}, f)
  }

  lemma {:induction false} MapSumAny<V>(m: map<nat, V>, f: V -> int, k: nat)
    requires k in m
    ensures MapSum(m, f) == f(m[k]) + MapSum(m - {k}, f)
    decreases |m|
  {
    var c :| c in m && MapSum(m, f) == f(m[c]) + MapSum(m - {c}, f);
    if c != k {
      MapSumAny(m - {c}, f, k);
      MapSumAny(m - {k}, f, c);
      assert m - {c} - {k} == m - {k} - {c};
    }
  }

  lemma MapSumUpdate<V>(m: map<nat, V>, f: V -> int, k: nat, v: V)
    ensures MapSum(m[k := v], f) == MapSum(m, f) - (if k in m then f(m[k]) else 0) + f(v)
  {
    MapSumAny(m[k := v], f, k);
    if k in m {
      MapSumAny(m, f, k);
      assert m[k := v] - {k} == m - {k};
    } else {
      assert m[k := v] - {k} == m;
    }
  }

  lemma {:induction false} MapSumNonNegative<V>(m: map<nat, V>, f: V -> int)
    requires forall k <- m :: f(m[k]) >= 0
    ensures MapSum(m, f) >= 0
    ensures forall k <- m :: f(m[k]) <= MapSum(m, f)
    decreases |m|
  {
    if m != map[] {
      var c :| c in m && MapSum(m, f) == f(m[c]) + MapSum(m - {c}, f);
      MapSumNonNegative(m - {c}, f);
      forall k <- m ensures f(m[k]) <= MapSum(m, f) {
        if k != c { assert k in m - {c} && (m - {c})[k] == m[k]; }
      }
    }
  }
}
