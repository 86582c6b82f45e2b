/** Shared vocabulary: the null-or-value wrapper used for every "unavailable"
    sentinel of the dashboard, and sums, extrema and counts over sequences of
    reals (JavaScript doubles are modelled as exact reals). */
module Common {

  /** `None` stands for the source's `null` sentinel (and for a missing,
      non-numeric, NaN or infinite cell). */
  datatype Option<+T> = None | Some(value: T)

  /** `w == (a + m) + t` regrouped as `a + (m + t)`. */
  lemma ConcatGlue<T>(w: seq<T>, x: seq<T>, a: seq<T>, m: seq<T>, b: seq<T>, t: seq<T>)
    requires w == x + t && x == a + m && b == m + t
    ensures w == a + b
  {
  }

  /** Sum accumulated left to right, as the source's `forEach` and `reduce` do. */
  function SumOf(s: seq<real>): real
  {
    if |s| == 0 then 0.0 else SumOf(s[..|s| - 1]) + s[|s| - 1]
  }

  lemma {:induction false} SumOfAppend(a: seq<real>, b: seq<real>)
    ensures SumOf(a + b) == SumOf(a) + SumOf(b)
    decreases |b|
  {
    if |b| == 0 {
      assert a + b == a;
    } else {
      assert (a + b)[..|a + b| - 1] == a + b[..|b| - 1];
      SumOfAppend(a, b[..|b| - 1]);
    }
  }

  lemma SumOfCons(x: real, s: seq<real>)
    ensures SumOf([x] + s) == x + SumOf(s)
  {
    SumOfAppend([x], s);
    assert [x][..0] == [];
  }

  /** A sum of non-negative terms is at least each of its prefixes' sums. */
  lemma {:induction false} SumOfPrefixLe(s: seq<real>, k: nat)
    requires k <= |s|
    requires forall i :: 0 <= i < |s| ==> s[i] >= 0.0
    ensures SumOf(s[..k]) <= SumOf(s)
    decreases |s|
  {
    if k < |s| {
      assert s[..|s| - 1][..k] == s[..k];
      SumOfPrefixLe(s[..|s| - 1], k);
    } else {
      assert s[..k] == s;
    }
  }

  lemma {:induction false} SumOfNonNeg(s: seq<real>)
    requires forall i :: 0 <= i < |s| ==> s[i] >= 0.0
    ensures SumOf(s) >= 0.0
    decreases |s|
  {
    if |s| > 0 {
      SumOfNonNeg(s[..|s| - 1]);
    }
  }

  lemma {:induction false} SumOfPositive(s: seq<real>)
    requires |s| > 0
    requires forall i :: 0 <= i < |s| ==> s[i] > 0.0
    ensures SumOf(s) > 0.0
    decreases |s|
  {
    if |s| > 1 {
      SumOfPositive(s[..|s| - 1]);
    }
  }

  /** Bounds of a sum from bounds of its terms. */
  lemma {:induction false} SumOfBounds(s: seq<real>, lo: real, hi: real)
    requires forall i :: 0 <= i < |s| ==> lo <= s[i] <= hi
    ensures (|s| as real) * lo <= SumOf(s) <= (|s| as real) * hi
    decreases |s|
  {
    if |s| > 0 {
      var p := s[..|s| - 1];
      SumOfBounds(p, lo, hi);
      assert SumOf(s) == SumOf(p) + s[|s| - 1];
      assert (|s| as real) == (|p| as real) + 1.0;
    }
  }

  /** The mean of a non-empty sequence lies between its least and greatest element. */
  lemma MeanBetween(s: seq<real>)
    requires |s| > 0
    ensures MinOf(s) <= SumOf(s) / (|s| as real) <= MaxOf(s)
  {
    MeanBounds(s, MinOf(s), MaxOf(s), SumOf(s), |s|);
  }

  /** A mean respects any bounds its terms respect. */
  lemma MeanBounds(s: seq<real>, lo: real, hi: real, t: real, k: nat)
    requires k == |s| > 0
    requires forall i :: 0 <= i < |s| ==> lo <= s[i] <= hi
    requires t == SumOf(s)
    ensures lo <= t / (k as real) <= hi
  {
    SumOfBounds(s, lo, hi);
    DivBounds(t, k as real, lo, hi);
  }

  lemma DivBounds(t: real, n: real, lo: real, hi: real)
    requires n > 0.0 && n * lo <= t <= n * hi
    ensures lo <= t / n <= hi
  {
    var q := t / n;
    assert q * n == t;
    assert (q - lo) * n >= 0.0;
    assert (hi - q) * n >= 0.0;
  }

  /** `q` is the ratio of `a` to `b`: multiplying it back by `b` gives `a`. */
  predicate IsQuotient(q: real, a: real, b: real)
  {
    q * b == a
  }

  /** `a / b` for a non-zero `b`. */
  function Quotient(a: real, b: real): (q: real)
    requires b != 0.0
    ensures IsQuotient(q, a, b)
  {
    a / b
  }

  /** Running minimum: the first element, then "if v < min, min = v". */
  function MinOf(s: seq<real>): (m: real)
    requires |s| > 0
    ensures m in s
    ensures forall i :: 0 <= i < |s| ==> m <= s[i]
  {
    if |s| == 1 then s[0]
    else
      var m := MinOf(s[..|s| - 1]);
      assert forall i :: 0 <= i < |s| - 1 ==> s[..|s| - 1][i] == s[i];
      if s[|s| - 1] < m then s[|s| - 1] else m
  }

  /** Running maximum: the first element, then "if v > max, max = v". */
  function MaxOf(s: seq<real>): (m: real)
    requires |s| > 0
    ensures m in s
    ensures forall i :: 0 <= i < |s| ==> s[i] <= m
  {
    if |s| == 1 then s[0]
    else
      var m := MaxOf(s[..|s| - 1]);
      assert forall i :: 0 <= i < |s| - 1 ==> s[..|s| - 1][i] == s[i];
      if s[|s| - 1] > m then s[|s| - 1] else m
  }

  /** Number of elements of `s` that are at most `m`. */
  function CountLe(s: seq<real>, m: real): nat
  {
    if |s| == 0 then 0
    else CountLe(s[..|s| - 1], m) + (if s[|s| - 1] <= m then 1 else 0)
  }

  /** Number of elements of `s` that are at least `m`. */
  function CountGe(s: seq<real>, m: real): nat
  {
    if |s| == 0 then 0
    else CountGe(s[..|s| - 1], m) + (if s[|s| - 1] >= m then 1 else 0)
  }

  lemma {:induction false} CountAppend(a: seq<real>, b: seq<real>, m: real)
    ensures CountLe(a + b, m) == CountLe(a, m) + CountLe(b, m)
    ensures CountGe(a + b, m) == CountGe(a, m) + CountGe(b, m)
    decreases |b|
  {
    if |b| == 0 {
      assert a + b == a;
    } else {
      assert (a + b)[..|a + b| - 1] == a + b[..|b| - 1];
      CountAppend(a, b[..|b| - 1], m);
    }
  }

  /** Counts depend only on the multiset of values, so sorting keeps them. */
  lemma {:induction false} CountPermutation(a: seq<real>, b: seq<real>, m: real)
    requires multiset(a) == multiset(b)
    ensures CountLe(a, m) == CountLe(b, m)
    ensures CountGe(a, m) == CountGe(b, m)
    decreases |a|
  {
    if |a| == 0 {
      assert |b| == |multiset(b)| == 0;
    } else {
      var x := a[|a| - 1];
      var a' := a[..|a| - 1];
      assert x in multiset(b);
      var k :| 0 <= k < |b| && b[k] == x;
      var b' := b[..k] + b[k + 1..];
      RemoveMatching(a, b, k);
      CountPermutation(a', b', m);
      CountWithout(b, k, m);
    }
  }

  /** Removing the last element of `a` and a copy of it from `b` keeps the
      two multisets equal. */
  lemma RemoveMatching<T>(a: seq<T>, b: seq<T>, k: nat)
    requires multiset(a) == multiset(b) && |a| > 0 && k < |b| && b[k] == a[|a| - 1]
    ensures multiset(a[..|a| - 1]) == multiset(b[..k] + b[k + 1..])
  {
    var x := a[|a| - 1];
    var a', b1, b2 := a[..|a| - 1], b[..k], b[k + 1..];
    assert a == a' + [x];
    assert b == b1 + [x] + b2;
    var ma, m1, m2 := multiset(a'), multiset(b1), multiset(b2);
    assert ma + multiset{x} == m1 + multiset{x} + m2;
    assert ma == (ma + multiset{x}) - multiset{x};
    assert m1 + m2 == (m1 + multiset{x} + m2) - multiset{x};
    assert multiset(b1 + b2) == m1 + m2;
  }

  /** The counts of `b` are those of `b` without its element `k`, plus that
      element's own contribution. */
  lemma CountWithout(b: seq<real>, k: nat, m: real)
    requires k < |b|
    ensures CountLe(b, m) == CountLe(b[..k] + b[k + 1..], m) + (if b[k] <= m then 1 else 0)
    ensures CountGe(b, m) == CountGe(b[..k] + b[k + 1..], m) + (if b[k] >= m then 1 else 0)
  {
    var x := b[k];
    assert b == b[..k] + [x] + b[k + 1..];
    CountAppend(b[..k], [x], m);
    CountAppend(b[..k] + [x], b[k + 1..], m);
    CountAppend(b[..k], b[k + 1..], m);
    assert [x][..0] == [];
  }

  /** A prefix whose elements are all at most (at least) `m` contributes its
      whole length to CountLe (CountGe). */
  lemma {:induction false} CountAllLe(s: seq<real>, m: real)
    requires forall i :: 0 <= i < |s| ==> s[i] <= m
    ensures CountLe(s, m) == |s|
    decreases |s|
  {
    if |s| > 0 {
      CountAllLe(s[..|s| - 1], m);
    }
  }

  lemma {:induction false} CountAllGe(s: seq<real>, m: real)
    requires forall i :: 0 <= i < |s| ==> s[i] >= m
    ensures CountGe(s, m) == |s|
    decreases |s|
  {
    if |s| > 0 {
      CountAllGe(s[..|s| - 1], m);
    }
  }

  /** The first `k` elements all at most `m`: at least `k` elements are. */
  lemma CountLeAtLeast(s: seq<real>, m: real, k: nat)
    requires k <= |s|
    requires forall i :: 0 <= i < k ==> s[i] <= m
    ensures CountLe(s, m) >= k
  {
    assert s == s[..k] + s[k..];
    CountAppend(s[..k], s[k..], m);
    CountAllLe(s[..k], m);
  }

  /** The elements from `k` on all at least `m`: at least `|s| - k` elements are. */
  lemma CountGeAtLeast(s: seq<real>, m: real, k: nat)
    requires k <= |s|
    requires forall i :: k <= i < |s| ==> s[i] >= m
    ensures CountGe(s, m) >= |s| - k
  {
    assert s == s[..k] + s[k..];
    CountAppend(s[..k], s[k..], m);
    CountAllGe(s[k..], m);
  }
}
