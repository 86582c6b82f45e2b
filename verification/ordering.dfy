/** Sorting as the dashboard uses it. `Array.prototype.sort` with a consistent
    comparator is a stable sort, so it is modelled by a stable insertion sort
    over a total preorder `le` ("comparator(a, b) <= 0"). The locale-aware
    `localeCompare` of economy names is replaced by code-point lexicographic
    order, which is a total order on strings. */
module Ordering {

  ghost predicate TotalPreorder<T(!new)>(le: (T, T) -> bool)
  {
    && (forall a, b :: le(a, b) || le(b, a))
    && (forall a, b, c :: le(a, b) && le(b, c) ==> le(a, c))
  }

  ghost predicate SortedBy<T>(s: seq<T>, le: (T, T) -> bool)
  {
    forall i, j :: 0 <= i < j < |s| ==> le(s[i], s[j])
  }

  /** Inserts `x` before the first element it does not follow, so that `x`
      stays ahead of the elements equivalent to it. */
  function Insert<T(!new)>(x: T, s: seq<T>, le: (T, T) -> bool): (r: seq<T>)
    requires TotalPreorder(le)
    requires SortedBy(s, le)
    ensures SortedBy(r, le)
    ensures multiset(r) == multiset(s) + multiset{x}
    ensures |r| == |s| + 1
  {
    if |s| == 0 || le(x, s[0]) then
      [x] + s
    else
      var t := Insert(x, s[1..], le);
      assert s == [s[0]] + s[1..];
      HeadBelow(s[0], s[1..], x, t, le);
      ConsSorted(s[0], t, le);
      [s[0]] + t
  }

  /** The head of a sorted list precedes every element of the rest with `x`
      inserted, when `x` does not precede the head. */
  lemma HeadBelow<T(!new)>(h: T, rest: seq<T>, x: T, t: seq<T>, le: (T, T) -> bool)
    requires TotalPreorder(le)
    requires SortedBy([h] + rest, le)
    requires !le(x, h)
    requires multiset(t) == multiset(rest) + multiset{x}
    ensures forall k :: 0 <= k < |t| ==> le(h, t[k])
  {
    forall k | 0 <= k < |t|
      ensures le(h, t[k])
    {
      assert t[k] in multiset(t);
      if t[k] != x {
        assert t[k] in multiset(rest);
        var j :| 0 <= j < |rest| && rest[j] == t[k];
        assert ([h] + rest)[0] == h && ([h] + rest)[j + 1] == rest[j];
      }
    }
  }

  /** A sorted list stays sorted under a head that precedes all of it. */
  lemma ConsSorted<T(!new)>(h: T, t: seq<T>, le: (T, T) -> bool)
    requires SortedBy(t, le)
    requires forall k :: 0 <= k < |t| ==> le(h, t[k])
    ensures SortedBy([h] + t, le)
  {
    forall i, j | 0 <= i < j < |[h] + t|
      ensures le(([h] + t)[i], ([h] + t)[j])
    {
      if i > 0 {
        assert ([h] + t)[i] == t[i - 1];
      } else {
        assert ([h] + t)[i] == h;
      }
      assert ([h] + t)[j] == t[j - 1];
    }
  }

  /** Stable sort: the first element is inserted ahead of every later element
      equivalent to it. */
  function SortBy<T(!new)>(s: seq<T>, le: (T, T) -> bool): (r: seq<T>)
    requires TotalPreorder(le)
    ensures SortedBy(r, le)
    ensures multiset(r) == multiset(s)
    ensures |r| == |s|
  {
    if |s| == 0 then []
    else
      assert s == [s[0]] + s[1..];
      Insert(s[0], SortBy(s[1..], le), le)
  }

  /** `a` and `b` compare equal both ways: the comparator returns 0. */
  predicate Equivalent<T>(a: T, b: T, le: (T, T) -> bool)
  {
    le(a, b) && le(b, a)
  }

  /** The elements of `s` equivalent to `y`, in the order `s` holds them. */
  function Ties<T>(s: seq<T>, y: T, le: (T, T) -> bool): seq<T>
  {
    if |s| == 0 then [] else (if Equivalent(s[0], y, le) then [s[0]] else []) + Ties(s[1..], y, le)
  }

  /** Inserting `x` puts it ahead of the elements equivalent to it and leaves
      their order alone. */
  lemma {:induction false} InsertTies<T(!new)>(x: T, s: seq<T>, le: (T, T) -> bool, y: T)
    requires TotalPreorder(le)
    requires SortedBy(s, le)
    ensures Ties(Insert(x, s, le), y, le) == (if Equivalent(x, y, le) then [x] else []) + Ties(s, y, le)
    decreases |s|
  {
    var r := Insert(x, s, le);
    if |s| == 0 || le(x, s[0]) {
      assert r[0] == x && r[1..] == s;
    } else {
      var h := s[0];
      var rest := s[1..];
      SortedTail(s, le);
      InsertTies(x, rest, le, y);
      assert r[0] == h && r[1..] == Insert(x, rest, le);
      assert Ties(r, y, le) == (if Equivalent(h, y, le) then [h] else []) + Ties(Insert(x, rest, le), y, le);
      assert Ties(s, y, le) == (if Equivalent(h, y, le) then [h] else []) + Ties(rest, y, le);
      NotBothTies(h, x, y, le);
    }
  }

  lemma SortedTail<T>(s: seq<T>, le: (T, T) -> bool)
    requires |s| > 0 && SortedBy(s, le)
    ensures SortedBy(s[1..], le)
  {
    forall i, j | 0 <= i < j < |s| - 1
      ensures le(s[1..][i], s[1..][j])
    {
      assert s[1..][i] == s[i + 1] && s[1..][j] == s[j + 1];
    }
  }

  /** An element that strictly follows `h` cannot share a tie class with it. */
  lemma NotBothTies<T(!new)>(h: T, x: T, y: T, le: (T, T) -> bool)
    requires TotalPreorder(le)
    requires !le(x, h)
    ensures !(Equivalent(h, y, le) && Equivalent(x, y, le))
  {
  }

  /** SortBy is stable: for every `y`, the elements equivalent to `y` come
      out in the order they went in. */
  lemma {:induction false} SortByStable<T(!new)>(s: seq<T>, le: (T, T) -> bool, y: T)
    requires TotalPreorder(le)
    ensures Ties(SortBy(s, le), y, le) == Ties(s, y, le)
    decreases |s|
  {
    if |s| > 0 {
      SortByStable(s[1..], le, y);
      InsertTies(s[0], SortBy(s[1..], le), le, y);
    }
  }

  /** Every element of a permutation comes from the original sequence. */
  lemma PermutationMembers<T>(a: seq<T>, b: seq<T>)
    requires multiset(a) == multiset(b)
    ensures forall k :: 0 <= k < |a| ==> a[k] in b
  {
    forall k | 0 <= k < |a|
      ensures a[k] in b
    {
      assert a[k] in multiset(a);
    }
  }

  /** Two ascending sequences of reals with the same elements are equal: the
      ascending order of a multiset of reals is unique. */
  lemma {:induction false} AscendingUnique(a: seq<real>, b: seq<real>)
    requires multiset(a) == multiset(b)
    requires forall i, j :: 0 <= i < j < |a| ==> a[i] <= a[j]
    requires forall i, j :: 0 <= i < j < |b| ==> b[i] <= b[j]
    ensures a == b
    decreases |a|
  {
    assert |a| == |multiset(a)| == |multiset(b)| == |b|;
    if |a| > 0 {
      AscendingHeads(a, b);
      AscendingUnique(a[1..], b[1..]);
      assert a == [a[0]] + a[1..];
      assert b == [b[0]] + b[1..];
    }
  }

  /** Both start with the least element, and the rests hold the same elements. */
  lemma AscendingHeads(a: seq<real>, b: seq<real>)
    requires |a| > 0 && |b| > 0 && multiset(a) == multiset(b)
    requires forall i, j :: 0 <= i < j < |a| ==> a[i] <= a[j]
    requires forall i, j :: 0 <= i < j < |b| ==> b[i] <= b[j]
    ensures a[0] == b[0]
    ensures multiset(a[1..]) == multiset(b[1..])
  {
    HeadIsLeast(a, b);
    HeadIsLeast(b, a);
    TailMultiset(a);
    TailMultiset(b);
  }

  /** The head of an ascending sequence is at most every element of a
      permutation of it. */
  lemma HeadIsLeast(a: seq<real>, b: seq<real>)
    requires |a| > 0 && |b| > 0 && multiset(a) == multiset(b)
    requires forall i, j :: 0 <= i < j < |b| ==> b[i] <= b[j]
    ensures b[0] <= a[0]
  {
    assert a[0] in multiset(b);
    var j :| 0 <= j < |b| && b[j] == a[0];
  }

  lemma TailMultiset<T>(a: seq<T>)
    requires |a| > 0
    ensures multiset(a[1..]) == multiset(a) - multiset{a[0]}
  {
    assert a == [a[0]] + a[1..];
  }

  /** Code-point lexicographic order on strings: a proper prefix comes first. */
  predicate StrLe(a: string, b: string)
  {
    if |a| == 0 then true
    else if |b| == 0 then false
    else if a[0] != b[0] then a[0] < b[0]
    else StrLe(a[1..], b[1..])
  }

  lemma {:induction false} StrLeTotal(a: string, b: string)
    ensures StrLe(a, b) || StrLe(b, a)
    decreases |a|
  {
    if |a| > 0 && |b| > 0 && a[0] == b[0] {
      StrLeTotal(a[1..], b[1..]);
    }
  }

  lemma {:induction false} StrLeTrans(a: string, b: string, c: string)
    requires StrLe(a, b) && StrLe(b, c)
    ensures StrLe(a, c)
    decreases |a|
  {
    if |a| > 0 && |b| > 0 && |c| > 0 && a[0] == b[0] && b[0] == c[0] {
      StrLeTrans(a[1..], b[1..], c[1..]);
    }
  }

  lemma {:induction false} StrLeAntisymmetric(a: string, b: string)
    requires StrLe(a, b) && StrLe(b, a)
    ensures a == b
    decreases |a|
  {
    if |a| > 0 && |b| > 0 {
      StrLeAntisymmetric(a[1..], b[1..]);
      assert a == [a[0]] + a[1..];
      assert b == [b[0]] + b[1..];
    }
  }

  /** The name order is a total order, so sorting names by it is well defined
      and independent of the input order. */
  lemma StrLeTotalOrder()
    ensures TotalPreorder(StrLe)
    ensures forall a, b :: StrLe(a, b) && StrLe(b, a) ==> a == b
  {
    forall a, b
      ensures StrLe(a, b) || StrLe(b, a)
    {
      StrLeTotal(a, b);
    }
    forall a, b, c | StrLe(a, b) && StrLe(b, c)
      ensures StrLe(a, c)
    {
      StrLeTrans(a, b, c);
    }
    forall a, b | StrLe(a, b) && StrLe(b, a)
      ensures a == b
    {
      StrLeAntisymmetric(a, b);
    }
  }

  /** Ascending order of reals, the comparator `(a, b) => a - b`. */
  predicate RealLe(a: real, b: real)
  {
    a <= b
  }

  lemma RealLeTotalOrder()
    ensures TotalPreorder(RealLe)
  {
  }

  /** Sorts names with the name order. */
  function SortNames(names: seq<string>): (r: seq<string>)
    ensures SortedBy(r, StrLe)
    ensures multiset(r) == multiset(names)
  {
    StrLeTotalOrder();
    SortBy(names, StrLe)
  }

  /** Sorts reals ascending. */
  function SortReals(s: seq<real>): (r: seq<real>)
    ensures forall i, j :: 0 <= i < j < |r| ==> r[i] <= r[j]
    ensures multiset(r) == multiset(s)
    ensures |r| == |s|
  {
    RealLeTotalOrder();
    var r := SortBy(s, RealLe);
    assert forall i, j :: 0 <= i < j < |r| ==> RealLe(r[i], r[j]);
    r
  }
}
