/** Sums over finite sets of keys. Python sums dictionary entries in insertion order;
    integer addition does not care about that order, so the model sums over the key
    set, choosing elements in an unspecified order. */
module Sums {
  import opened Base

  /** The sum of `f(k)` over every `k` in `s`. */
  ghost function SumSet(s: set<string>, f: string -> int): int
    decreases s
  {
    if s == {} then 0 else var k :| k in s; f(k) + SumSet(s - {k}, f)
  }

  /** The sum of every value of a `Dict[str, int]`, `sum(m.values())`. */
  ghost function MapTotal(m: map<string, int>): int
  {
    SumSet(m.Keys, k => GetOrZero(m, k))
  }

  /** Any element can be taken out first: the choice inside SumSet does not matter. */
  lemma {:induction false} SumSetRemove(s: set<string>, f: string -> int, y: string)
    requires y in s
    ensures SumSet(s, f) == f(y) + SumSet(s - {y}, f)
    decreases s
  {
    var k :| k in s && SumSet(s, f) == f(k) + SumSet(s - {k}, f);
    if k != y {
      SumSetRemove(s - {k}, f, y);
      SumSetRemove(s - {y}, f, k);
      assert s - {k} - {y} == s - {y} - {k};
    }
  }

  /** Functions that agree on `s` have the same sum over `s`. */
  lemma {:induction false} SumSetAgree(s: set<string>, f: string -> int, g: string -> int)
    requires forall k :: k in s ==> f(k) == g(k)
    ensures SumSet(s, f) == SumSet(s, g)
    decreases s
  {
    if s != {} {
      var k :| k in s;
      SumSetRemove(s, f, k);
      SumSetRemove(s, g, k);
      SumSetAgree(s - {k}, f, g);
    }
  }

  /** Summing a pointwise sum is the sum of the two sums. */
  lemma {:induction false} SumSetAdd(s: set<string>, f: string -> int, g: string -> int, h: string -> int)
    requires forall k :: k in s ==> h(k) == f(k) + g(k)
    ensures SumSet(s, h) == SumSet(s, f) + SumSet(s, g)
    decreases s
  {
    if s != {} {
      var k :| k in s;
      SumSetRemove(s, f, k);
      SumSetRemove(s, g, k);
      SumSetRemove(s, h, k);
      SumSetAdd(s - {k}, f, g, h);
    }
  }

  /** A sum of terms that are all zero is zero. */
  lemma {:induction false} SumSetZero(s: set<string>, f: string -> int)
    requires forall k :: k in s ==> f(k) == 0
    ensures SumSet(s, f) == 0
    decreases s
  {
    if s != {} {
      var k :| k in s;
      SumSetRemove(s, f, k);
      SumSetZero(s - {k}, f);
    }
  }

  /** A sum of non-negative terms is non-negative. */
  lemma {:induction false} SumSetNonNegative(s: set<string>, f: string -> int)
    requires forall k :: k in s ==> f(k) >= 0
    ensures SumSet(s, f) >= 0
    decreases s
  {
    if s != {} {
      var k :| k in s;
      SumSetRemove(s, f, k);
      SumSetNonNegative(s - {k}, f);
    }
  }

  /** Splitting the key set along any set `a` splits the sum. */
  lemma {:induction false} SumSetSplit(s: set<string>, a: set<string>, f: string -> int)
    ensures SumSet(s, f) == SumSet(s * a, f) + SumSet(s - a, f)
    decreases s
  {
    if s != {} {
      var k :| k in s;
      SumSetRemove(s, f, k);
      SumSetSplit(s - {k}, a, f);
      if k in a {
        SumSetRemove(s * a, f, k);
        assert (s - {k}) * a == s * a - {k};
        assert (s - {k}) - a == s - a;
      } else {
        SumSetRemove(s - a, f, k);
        assert (s - {k}) * a == s * a;
        assert (s - {k}) - a == s - a - {k};
      }
    }
  }

  /** Keys where `f` is zero can be dropped from the key set. */
  lemma SumSetDropZeros(s: set<string>, a: set<string>, f: string -> int)
    requires forall k :: k in s && k !in a ==> f(k) == 0
    ensures SumSet(s, f) == SumSet(s * a, f)
  {
    SumSetSplit(s, a, f);
    SumSetZero(s - a, f);
  }

  /** Adding one to the entry for `k` (creating it at 1 when absent) adds one to the total. */
  lemma MapTotalIncrement(m: map<string, int>, k: string)
    ensures MapTotal(m[k := GetOrZero(m, k) + 1]) == MapTotal(m) + 1
  {
    var m' := m[k := GetOrZero(m, k) + 1];
    var f := l => GetOrZero(m, l);
    var f' := l => GetOrZero(m', l);
    SumSetRemove(m'.Keys, f', k);
    SumSetAgree(m'.Keys - {k}, f', f);
    if k in m {
      assert m'.Keys == m.Keys;
      SumSetRemove(m.Keys, f, k);
    } else {
      assert m'.Keys - {k} == m.Keys;
    }
  }
}
