/** Rankings of the summary view: the top-5/bottom-5 leaderboard of a
    column, the width of its bars, and the economy-versus-economy
    comparator with 1-based descending ranks. */
module Leaderboard {
  import opened Common
  import opened Dataset
  import Ordering

  /** The comparator `(a, b) => b.v - a.v` is at most zero. */
  predicate ValueDesc(a: Entry, b: Entry)
  {
    a.v >= b.v
  }

  /** The comparator `(a, b) => a.v - b.v` is at most zero. */
  predicate ValueAsc(a: Entry, b: Entry)
  {
    a.v <= b.v
  }

  lemma ValueOrders()
    ensures Ordering.TotalPreorder(ValueDesc)
    ensures Ordering.TotalPreorder(ValueAsc)
  {
  }

  /** Entries by non-increasing value, ties in input order. */
  function SortDesc(es: seq<Entry>): (r: seq<Entry>)
    ensures |r| == |es|
    ensures multiset(r) == multiset(es)
    ensures forall i, j :: 0 <= i < j < |r| ==> r[i].v >= r[j].v
  {
    ValueOrders();
    var r := Ordering.SortBy(es, ValueDesc);
    assert forall i, j :: 0 <= i < j < |r| ==> ValueDesc(r[i], r[j]);
    r
  }

  /** Entries by non-decreasing value, ties in input order. */
  function SortAsc(es: seq<Entry>): (r: seq<Entry>)
    ensures |r| == |es|
    ensures multiset(r) == multiset(es)
    ensures forall i, j :: 0 <= i < j < |r| ==> r[i].v <= r[j].v
  {
    ValueOrders();
    var r := Ordering.SortBy(es, ValueAsc);
    assert forall i, j :: 0 <= i < j < |r| ==> ValueAsc(r[i], r[j]);
    r
  }

  /** The entries whose value is exactly `v`, in the order `es` holds them. */
  function WithValue(es: seq<Entry>, v: real): seq<Entry>
  {
    if |es| == 0 then [] else (if es[0].v == v then [es[0]] else []) + WithValue(es[1..], v)
  }

  /** Under either value order, the tie class of a value is the entries
      holding that value. */
  lemma {:induction false} WithValueTies(es: seq<Entry>, v: real)
    ensures WithValue(es, v) == Ordering.Ties(es, Entry("", v), ValueDesc)
    ensures WithValue(es, v) == Ordering.Ties(es, Entry("", v), ValueAsc)
    decreases |es|
  {
    if |es| > 0 {
      WithValueTies(es[1..], v);
    }
  }

  /** SortDesc is stable: entries of equal value keep their input order. */
  lemma SortDescStable(es: seq<Entry>, v: real)
    ensures WithValue(SortDesc(es), v) == WithValue(es, v)
  {
    ValueOrders();
    Ordering.SortByStable(es, ValueDesc, Entry("", v));
    WithValueTies(SortDesc(es), v);
    WithValueTies(es, v);
  }

  /** SortAsc is stable: entries of equal value keep their input order. */
  lemma SortAscStable(es: seq<Entry>, v: real)
    ensures WithValue(SortAsc(es), v) == WithValue(es, v)
  {
    ValueOrders();
    Ordering.SortByStable(es, ValueAsc, Entry("", v));
    WithValueTies(SortAsc(es), v);
    WithValueTies(es, v);
  }

  /** The entries of value `v` in a prefix of `es` are a prefix of the
      entries of value `v` in `es`. */
  lemma {:induction false} WithValuePrefix(es: seq<Entry>, k: nat, v: real)
    requires k <= |es|
    ensures WithValue(es[..k], v) <= WithValue(es, v)
    decreases k
  {
    if k > 0 {
      var p := es[..k];
      assert p[0] == es[0];
      assert p[1..] == es[1..][..k - 1];
      WithValuePrefix(es[1..], k - 1, v);
    }
  }

  /** The object `leaderboard` returns. */
  datatype Board = Board(top: seq<Entry>, bottom: seq<Entry>, min: Option<real>, max: Option<real>, n: nat)

  /** A prefix of a permutation sorted by non-increasing value keeps the
      largest entries: whatever is left out is no larger than its last. */
  lemma PrefixDominatesDesc(rows: seq<Entry>, sorted: seq<Entry>, top: seq<Entry>)
    requires 0 < |top| <= |sorted| && top == sorted[..|top|]
    requires multiset(sorted) == multiset(rows)
    requires forall i, j :: 0 <= i < j < |sorted| ==> sorted[i].v >= sorted[j].v
    ensures multiset(top) <= multiset(rows)
    ensures forall e :: e in multiset(rows) - multiset(top) ==> e.v <= top[|top| - 1].v
  {
    var k := |top|;
    var rest := sorted[k..];
    assert sorted == top + rest;
    assert multiset(rows) == multiset(top) + multiset(rest);
    forall e | e in multiset(rows) - multiset(top)
      ensures e.v <= top[k - 1].v
    {
      assert e in multiset(rest);
      var j :| 0 <= j < |rest| && rest[j] == e;
      assert sorted[k + j] == e;
    }
  }

  /** A prefix of a permutation sorted by non-decreasing value keeps the
      smallest entries: whatever is left out is no smaller than its last. */
  lemma PrefixDominatesAsc(rows: seq<Entry>, sorted: seq<Entry>, bottom: seq<Entry>)
    requires 0 < |bottom| <= |sorted| && bottom == sorted[..|bottom|]
    requires multiset(sorted) == multiset(rows)
    requires forall i, j :: 0 <= i < j < |sorted| ==> sorted[i].v <= sorted[j].v
    ensures multiset(bottom) <= multiset(rows)
    ensures forall e :: e in multiset(rows) - multiset(bottom) ==> e.v >= bottom[|bottom| - 1].v
  {
    var k := |bottom|;
    var rest := sorted[k..];
    assert sorted == bottom + rest;
    assert multiset(rows) == multiset(bottom) + multiset(rest);
    forall e | e in multiset(rows) - multiset(bottom)
      ensures e.v >= bottom[k - 1].v
    {
      assert e in multiset(rest);
      var j :| 0 <= j < |rest| && rest[j] == e;
      assert sorted[k + j] == e;
    }
  }

  /** The first element of a sorted permutation holds the extreme value. */
  lemma FirstIsExtreme(rows: seq<Entry>, sorted: seq<Entry>, desc: bool)
    requires 0 < |sorted|
    requires multiset(sorted) == multiset(rows)
    requires desc ==> forall i, j :: 0 <= i < j < |sorted| ==> sorted[i].v >= sorted[j].v
    requires !desc ==> forall i, j :: 0 <= i < j < |sorted| ==> sorted[i].v <= sorted[j].v
    ensures |rows| == |sorted|
    ensures desc ==> sorted[0].v == MaxOf(EntryValues(rows))
    ensures !desc ==> sorted[0].v == MinOf(EntryValues(rows))
  {
    assert |rows| == |multiset(rows)| == |sorted|;
    if desc {
      FirstIsMax(rows, sorted);
    } else {
      FirstIsMin(rows, sorted);
    }
  }

  lemma FirstIsMax(rows: seq<Entry>, sorted: seq<Entry>)
    requires 0 < |sorted| == |rows|
    requires multiset(sorted) == multiset(rows)
    requires forall i, j :: 0 <= i < j < |sorted| ==> sorted[i].v >= sorted[j].v
    ensures sorted[0].v == MaxOf(EntryValues(rows))
  {
    var vs := EntryValues(rows);
    var i :| 0 <= i < |vs| && vs[i] == MaxOf(vs);
    SharedEntry(rows, sorted, i);
    var l := PermutationIndex(sorted, rows, 0);
    assert vs[l] == sorted[0].v;
  }

  lemma FirstIsMin(rows: seq<Entry>, sorted: seq<Entry>)
    requires 0 < |sorted| == |rows|
    requires multiset(sorted) == multiset(rows)
    requires forall i, j :: 0 <= i < j < |sorted| ==> sorted[i].v <= sorted[j].v
    ensures sorted[0].v == MinOf(EntryValues(rows))
  {
    var vs := EntryValues(rows);
    var i :| 0 <= i < |vs| && vs[i] == MinOf(vs);
    SharedEntry(rows, sorted, i);
    var l := PermutationIndex(sorted, rows, 0);
    assert vs[l] == sorted[0].v;
  }

  /** Entry `i` of `rows` sits somewhere in its permutation `sorted`, at or
      after the head. */
  lemma SharedEntry(rows: seq<Entry>, sorted: seq<Entry>, i: nat)
    requires i < |rows| && multiset(sorted) == multiset(rows)
    ensures (forall a, b :: 0 <= a < b < |sorted| ==> sorted[a].v >= sorted[b].v) ==> sorted[0].v >= rows[i].v
    ensures (forall a, b :: 0 <= a < b < |sorted| ==> sorted[a].v <= sorted[b].v) ==> sorted[0].v <= rows[i].v
  {
    var j := PermutationIndex(rows, sorted, i);
    if j > 0 {
      assert 0 <= 0 < j < |sorted|;
    }
  }

  /** Where entry `i` of `a` occurs in its permutation `b`. */
  lemma PermutationIndex(a: seq<Entry>, b: seq<Entry>, i: nat) returns (j: nat)
    requires i < |a| && multiset(a) == multiset(b)
    ensures j < |b| && b[j] == a[i]
  {
    assert a[i] in multiset(a);
    assert a[i] in multiset(b);
    j :| 0 <= j < |b| && b[j] == a[i];
  }


  /** `leaderboard` (app.js:293-303): the eligible rows of a column, the
      largest min(5, n) of them in non-increasing order, the smallest min(5, n)
      in non-decreasing order, and their least and greatest value; empty lists
      and `null` bounds when no row is eligible. */
  function Leaderboard(data: seq<Row>, id: ColumnId): (b: Board)
    ensures b.n == |Numeric(data, id)|
    ensures b.n == 0 ==> b.top == [] && b.bottom == [] && b.min.None? && b.max.None?
    ensures b.n > 0 ==> |b.top| == |b.bottom| == (if b.n < 5 then b.n else 5)
    ensures b.n > 0 ==> b.min.Some? && b.max.Some?
    ensures forall i, j :: 0 <= i < j < |b.top| ==> b.top[i].v >= b.top[j].v
    ensures forall i, j :: 0 <= i < j < |b.bottom| ==> b.bottom[i].v <= b.bottom[j].v
  {
    var rows := Numeric(data, id);
    var n := |rows|;
    if n == 0 then Board([], [], None, None, 0)
    else
      var vs := EntryValues(rows);
      var k := if 5 < n then 5 else n;
      Board(SortDesc(rows)[..k], SortAsc(rows)[..k], Some(MinOf(vs)), Some(MaxOf(vs)), n)
  }

  /** Ties at the cut-off keep dataset order: for every value, the entries of
      the top list and of the bottom list holding it are the first ones
      holding it among the eligible rows, in dataset order. */
  lemma LeaderboardTies(data: seq<Row>, id: ColumnId, v: real)
    ensures WithValue(Leaderboard(data, id).top, v) <= WithValue(Numeric(data, id), v)
    ensures WithValue(Leaderboard(data, id).bottom, v) <= WithValue(Numeric(data, id), v)
  {
    var b := Leaderboard(data, id);
    var rows := Numeric(data, id);
    if |rows| > 0 {
      var k := |b.top|;
      assert b.top == SortDesc(rows)[..k];
      assert b.bottom == SortAsc(rows)[..k];
      WithValuePrefix(SortDesc(rows), k, v);
      SortDescStable(rows, v);
      WithValuePrefix(SortAsc(rows), k, v);
      SortAscStable(rows, v);
    }
  }

  /** The top list is drawn from the eligible rows and really holds the
      largest values: every row left out is no larger than its last entry. */
  lemma LeaderboardTop(data: seq<Row>, id: ColumnId)
    ensures var b := Leaderboard(data, id);
            multiset(b.top) <= multiset(Numeric(data, id))
    ensures var b := Leaderboard(data, id);
            b.n > 0 ==> forall e :: e in multiset(Numeric(data, id)) - multiset(b.top) ==>
              e.v <= b.top[|b.top| - 1].v
  {
    var top := Leaderboard(data, id).top;
    var rows := Numeric(data, id);
    if |rows| > 0 {
      var sorted := SortDesc(rows);
      assert top == sorted[..|top|];
      PrefixDominatesDesc(rows, sorted, top);
    }
  }

  /** The bottom list is drawn from the eligible rows and really holds the
      smallest values: every row left out is no smaller than its last entry. */
  lemma LeaderboardBottom(data: seq<Row>, id: ColumnId)
    ensures var b := Leaderboard(data, id);
            multiset(b.bottom) <= multiset(Numeric(data, id))
    ensures var b := Leaderboard(data, id);
            b.n > 0 ==> forall e :: e in multiset(Numeric(data, id)) - multiset(b.bottom) ==>
              e.v >= b.bottom[|b.bottom| - 1].v
  {
    var bottom := Leaderboard(data, id).bottom;
    var rows := Numeric(data, id);
    if |rows| > 0 {
      var sorted := SortAsc(rows);
      assert bottom == sorted[..|bottom|];
      PrefixDominatesAsc(rows, sorted, bottom);
    }
  }

  /** The leaderboard's bounds are the first entries of its two lists and
      enclose every eligible value. */
  lemma LeaderboardBounds(data: seq<Row>, id: ColumnId)
    ensures var b := Leaderboard(data, id);
            b.n > 0 ==> b.max == Some(b.top[0].v) && b.min == Some(b.bottom[0].v)
    ensures var b := Leaderboard(data, id);
            b.n > 0 ==> forall k :: 0 <= k < b.n ==> b.min.value <= Numeric(data, id)[k].v <= b.max.value
  {
    var b := Leaderboard(data, id);
    var rows := Numeric(data, id);
    if b.n > 0 {
      FirstIsExtreme(rows, SortDesc(rows), true);
      FirstIsExtreme(rows, SortAsc(rows), false);
      var vs := EntryValues(rows);
      assert forall k :: 0 <= k < b.n ==> vs[k] == rows[k].v;
    }
  }

  /** JavaScript's `Math.round` on a finite value: the nearest integer, with
      halves rounded up. */
  function Round(x: real): (r: int)
    ensures r as real - 0.5 <= x < r as real + 0.5
  {
    (x + 0.5).Floor
  }

  /** `barWidth` (app.js:303-308): a bar width in percent, always in
      [12, 100], and exactly 100 when a bound or the value is missing or the
      range is a single value. */
  function BarWidth(v: Option<real>, min: Option<real>, max: Option<real>): (w: int)
    ensures 12 <= w <= 100
    ensures v.None? || min.None? || max.None? || min == max ==> w == 100
    ensures v.Some? && min.Some? && max.Some? && min != max ==>
              var pct := 12.0 + (v.value - min.value) / (max.value - min.value) * 88.0;
              && (11.5 <= pct < 100.5 ==> -0.5 < (w as real) - pct <= 0.5)
              && (pct < 11.5 ==> w == 12)
              && (100.5 <= pct ==> w == 100)
  {
    if v.None? || min.None? || max.None? || max.value == min.value then 100
    else
      var t := (v.value - min.value) / (max.value - min.value);
      var pct := 12.0 + t * 88.0;
      var r := Round(pct);
      if 100 < r then 100 else if r < 12 then 12 else r
  }

  /** Halfway between min 0 and max 10 the bar is 12 + 44 = 56 wide. */
  lemma BarWidthMidpoint()
    ensures BarWidth(Some(5.0), Some(0.0), Some(10.0)) == 56
  {
    assert (5.0 - 0.0) / (10.0 - 0.0) == 0.5;
  }

  lemma ScaleMonotone(a: real, b: real, lo: real, hi: real)
    requires lo < hi && a <= b
    ensures (a - lo) / (hi - lo) <= (b - lo) / (hi - lo)
  {
    var d := hi - lo;
    assert (b - lo) / d - (a - lo) / d == (b - a) / d;
  }

  /** Bars grow with the value: a larger value never gets a narrower bar,
      the maximum gets the full 100 and the minimum the base 12. */
  lemma BarWidthMonotone(a: real, b: real, lo: real, hi: real)
    requires lo < hi && a <= b
    ensures BarWidth(Some(a), Some(lo), Some(hi)) <= BarWidth(Some(b), Some(lo), Some(hi))
    ensures BarWidth(Some(hi), Some(lo), Some(hi)) == 100
    ensures BarWidth(Some(lo), Some(lo), Some(hi)) == 12
  {
    ScaleMonotone(a, b, lo, hi);
    var ta := (a - lo) / (hi - lo);
    var tb := (b - lo) / (hi - lo);
    assert 12.0 + ta * 88.0 <= 12.0 + tb * 88.0;
    assert (hi - lo) / (hi - lo) == 1.0;
    assert (lo - lo) / (hi - lo) == 0.0;
  }

  /** The first row named `name` (`DATA.find(r => r.Economy === name)`). */
  function FindRow(data: seq<Row>, name: string): (r: Option<Row>)
    ensures r.None? <==> forall i :: 0 <= i < |data| ==> data[i].economy != Some(name)
    ensures r.Some? ==>
              exists i :: (0 <= i < |data| && data[i] == r.value &&
                data[i].economy == Some(name) &&
                forall j :: 0 <= j < i ==> data[j].economy != Some(name))
  {
    if |data| == 0 then None
    else if data[0].economy == Some(name) then Some(data[0])
    else
      var r := FindRow(data[1..], name);
      assert forall i :: 1 <= i < |data| ==> data[1..][i - 1] == data[i];
      if r.Some? then
        var i :| 0 <= i < |data[1..]| && data[1..][i] == r.value && data[1..][i].economy == Some(name) &&
                 forall j :: 0 <= j < i ==> data[1..][j].economy != Some(name);
        assert data[i + 1] == r.value;
        r
      else r
  }

  /** The numeric value of column `id` in the first row named `name`:
      absent when no row has the name, and otherwise that row's finite cell. */
  function ValueOf(data: seq<Row>, name: string, id: ColumnId): (v: Option<real>)
    ensures (forall i :: 0 <= i < |data| ==> data[i].economy != Some(name)) ==> v.None?
    ensures forall i :: (0 <= i < |data| && data[i].economy == Some(name) &&
                         forall j :: 0 <= j < i ==> data[j].economy != Some(name))
                        ==> v == Cell(data[i], id)
    ensures v.Some? ==>
              exists i :: (0 <= i < |data| && data[i].economy == Some(name) && Cell(data[i], id) == v &&
                forall j :: 0 <= j < i ==> data[j].economy != Some(name))
  {
    match FindRow(data, name)
    case None => None
    case Some(r) =>
      var k :| 0 <= k < |data| && data[k] == r && data[k].economy == Some(name) &&
        forall j :: 0 <= j < k ==> data[j].economy != Some(name);
      assert forall i :: (0 <= i < |data| && data[i].economy == Some(name) &&
                          forall j :: 0 <= j < i ==> data[j].economy != Some(name))
                         ==> i == k;
      Cell(r, id)
  }

  /** The eligible entries in rank order: non-increasing value, ties in
      dataset order. */
  function Ranked(data: seq<Row>, id: ColumnId): (ranked: seq<Entry>)
    ensures |ranked| == |Numeric(data, id)|
    ensures multiset(ranked) == multiset(Numeric(data, id))
    ensures forall i, j :: 0 <= i < j < |ranked| ==> ranked[i].v >= ranked[j].v
  {
    SortDesc(Numeric(data, id))
  }

  /** Economies tied on a value are ranked in dataset order. */
  lemma RankedStable(data: seq<Row>, id: ColumnId, v: real)
    ensures WithValue(Ranked(data, id), v) == WithValue(Numeric(data, id), v)
  {
    SortDescStable(Numeric(data, id), v);
  }

  /** `rankMap.get(name)`: the map is built from `[name, i + 1]` pairs in
      order, so a later entry with the same name overwrites an earlier one. */
  function RankOf(ranked: seq<Entry>, name: string): (k: Option<nat>)
    ensures k.None? <==> forall i :: 0 <= i < |ranked| ==> ranked[i].name != name
    ensures k.Some? ==> 1 <= k.value <= |ranked| && ranked[k.value - 1].name == name
    ensures k.Some? ==> forall j :: k.value <= j < |ranked| ==> ranked[j].name != name
  {
    if |ranked| == 0 then None
    else if ranked[|ranked| - 1].name == name then Some(|ranked|)
    else
      var p := ranked[..|ranked| - 1];
      assert forall i :: 0 <= i < |p| ==> p[i] == ranked[i];
      RankOf(p, name)
  }

  /** What the frontier comparator shows for economies A and B. */
  datatype Comparison = Comparison(
    aVal: Option<real>, bVal: Option<real>,
    aRank: Option<nat>, bRank: Option<nat>, n: nat,
    ratio: Option<real>, diff: Option<real>, rankDelta: Option<int>)

  /** `updateComparator` (app.js:1043-1094): the two values, their 1-based
      ranks among the eligible rows sorted by descending value, the ratio
      A / B (only when B is non-zero), the difference A - B and the rank
      delta rankB - rankA (positive when A ranks higher). */
  function Compare(data: seq<Row>, id: ColumnId, aName: string, bName: string): (c: Comparison)
    ensures c.n == |Numeric(data, id)|
    ensures c.aVal == ValueOf(data, aName, id) && c.bVal == ValueOf(data, bName, id)
    ensures c.aRank == RankOf(Ranked(data, id), aName) && c.bRank == RankOf(Ranked(data, id), bName)
    ensures c.ratio.Some? <==> c.aVal.Some? && c.bVal.Some? && c.bVal.value != 0.0
    ensures c.ratio.Some? ==> IsQuotient(c.ratio.value, c.aVal.value, c.bVal.value)
    ensures c.diff.Some? <==> c.aVal.Some? && c.bVal.Some?
    ensures c.diff.Some? ==> c.bVal.value + c.diff.value == c.aVal.value
    ensures c.rankDelta.Some? <==> c.aRank.Some? && c.bRank.Some?
    ensures c.rankDelta.Some? ==> (c.rankDelta.value > 0 <==> c.aRank.value < c.bRank.value)
    ensures c.rankDelta.Some? ==> c.aRank.value + c.rankDelta.value == c.bRank.value
  {
    var aVal := ValueOf(data, aName, id);
    var bVal := ValueOf(data, bName, id);
    var ranked := Ranked(data, id);
    var aRank := RankOf(ranked, aName);
    var bRank := RankOf(ranked, bName);
    var ratio := if aVal.Some? && bVal.Some? && bVal.value != 0.0 then Some(Quotient(aVal.value, bVal.value)) else None;
    var diff := if aVal.Some? && bVal.Some? then Some(aVal.value - bVal.value) else None;
    var delta := if aRank.Some? && bRank.Some? then Some(bRank.value - aRank.value) else None;
    Comparison(aVal, bVal, aRank, bRank, |ranked|, ratio, diff, delta)
  }

  /** An economy has a rank exactly when it is among the eligible rows. */
  lemma RankPresence(data: seq<Row>, id: ColumnId, name: string)
    ensures RankOf(Ranked(data, id), name).None? <==>
            forall k :: 0 <= k < |Numeric(data, id)| ==> Numeric(data, id)[k].name != name
  {
    var rows := Numeric(data, id);
    var r := Ranked(data, id);
    RankOfPermutation(rows, r, name);
  }

  /** A ranking that permutes `rows` ranks exactly the names in `rows`. */
  lemma RankOfPermutation(rows: seq<Entry>, r: seq<Entry>, name: string)
    requires multiset(rows) == multiset(r)
    ensures RankOf(r, name).None? <==> forall k :: 0 <= k < |rows| ==> rows[k].name != name
  {
    var k := RankOf(r, name);
    if k.Some? {
      var i := k.value - 1;
      assert r[i] in multiset(r);
      var j :| 0 <= j < |rows| && rows[j] == r[i];
      assert rows[j].name == name;
    } else {
      forall j | 0 <= j < |rows|
        ensures rows[j].name != name
      {
        assert rows[j] in multiset(rows);
        var i :| 0 <= i < |r| && r[i] == rows[j];
      }
    }
  }

  /** Ranks follow values: of two ranked entries, a strictly larger value has
      a strictly better (smaller) rank, and rank 1 holds the column's
      maximum, the value ArgmaxEconomy reports. */
  lemma RanksFollowValues(data: seq<Row>, id: ColumnId, aName: string, bName: string)
    requires RankOf(Ranked(data, id), aName).Some? && RankOf(Ranked(data, id), bName).Some?
    ensures var r := Ranked(data, id);
            var a := RankOf(r, aName).value;
            var b := RankOf(r, bName).value;
            r[a - 1].v > r[b - 1].v ==> a < b
    ensures forall k :: 0 <= k < |Numeric(data, id)| ==> Numeric(data, id)[k].v <= Ranked(data, id)[0].v
  {
    var r := Ranked(data, id);
    DescendingPositions(r, RankOf(r, aName).value - 1, RankOf(r, bName).value - 1);
    RankedHeadIsMax(data, id);
  }

  /** In a list sorted by non-increasing value, a strictly larger value sits
      strictly earlier. */
  lemma DescendingPositions(r: seq<Entry>, i: nat, j: nat)
    requires forall p, q :: 0 <= p < q < |r| ==> r[p].v >= r[q].v
    requires i < |r| && j < |r|
    ensures r[i].v > r[j].v ==> i < j
  {
  }

  /** The first ranked entry holds the largest value. */
  lemma RankedHeadIsMax(data: seq<Row>, id: ColumnId)
    requires |Numeric(data, id)| > 0
    ensures forall k :: 0 <= k < |Numeric(data, id)| ==> Numeric(data, id)[k].v <= Ranked(data, id)[0].v
  {
    var r := Ranked(data, id);
    var rows := Numeric(data, id);
    forall k | 0 <= k < |rows|
      ensures rows[k].v <= r[0].v
    {
      assert rows[k] in multiset(rows);
      var j :| 0 <= j < |r| && r[j] == rows[k];
    }
  }
}
