/** Concentration risk of the portfolio's GDP: the shares of the largest 3, 5
    and 10 economies, the Herfindahl-Hirschman index (the sum of squared
    shares) and the sensitivity of the average productivity level to the
    largest economy. */
module Concentration {
  import opened Common
  import opened Dataset
  import opened Aggregate
  import Leaderboard

  const GdpId: ColumnId := "GDP_PPP_2023_bn"
  const LpId: ColumnId := "LP_level_per_worker_2023_kUSD"

  /** `gdpRows` (app.js:375): the eligible GDP rows by non-increasing GDP. */
  function GdpRows(data: seq<Row>): (rows: seq<Entry>)
    ensures multiset(rows) == multiset(Numeric(data, GdpId))
    ensures forall i, j :: 0 <= i < j < |rows| ==> rows[i].v >= rows[j].v
  {
    Leaderboard.SortDesc(Numeric(data, GdpId))
  }

  /** `totalGdp`: the sum of the listed values, left to right. */
  function Total(rows: seq<Entry>): real
  {
    SumOf(EntryValues(rows))
  }

  /** `rows.slice(0, k)`: the first `k` rows, or all of them when fewer. */
  function Take(rows: seq<Entry>, k: nat): (r: seq<Entry>)
    ensures |r| == if k < |rows| then k else |rows|
    ensures r == rows[..|r|]
  {
    if k < |rows| then rows[..k] else rows
  }

  /** The guard `gdpRows.length && totalGdp`. */
  predicate Available(rows: seq<Entry>)
  {
    |rows| > 0 && Total(rows) != 0.0
  }

  /** The share of the first `k` rows in the total (app.js:376-377 and
      633-636); `null` when there are no rows or the total is zero. */
  function TopShare(rows: seq<Entry>, k: nat): (s: Option<real>)
    ensures s.None? <==> !Available(rows)
    ensures s.Some? ==> IsQuotient(s.value, Total(Take(rows, k)), Total(rows))
  {
    if Available(rows) then Some(Quotient(Total(Take(rows, k)), Total(rows))) else None
  }

  /** `top5Share` of the signals strip (app.js:375-377). */
  function Top5Share(data: seq<Row>): (s: Option<real>)
    ensures s.None? <==> !Available(GdpRows(data))
    ensures s.Some? ==> IsQuotient(s.value, Total(Take(GdpRows(data), 5)), Total(GdpRows(data)))
  {
    TopShare(GdpRows(data), 5)
  }

  /** `shares` (app.js:637): each row's value over the total, in order. */
  function Shares(rows: seq<Entry>, total: real): (s: seq<real>)
    requires total != 0.0
    ensures |s| == |rows|
    ensures forall k :: 0 <= k < |rows| ==> s[k] == rows[k].v / total
  {
    if |rows| == 0 then []
    else Shares(rows[..|rows| - 1], total) + [rows[|rows| - 1].v / total]
  }

  /** Sum of squares, accumulated left to right. */
  function SumSquares(s: seq<real>): real
  {
    if |s| == 0 then 0.0 else SumSquares(s[..|s| - 1]) + s[|s| - 1] * s[|s| - 1]
  }

  /** `hhi` (app.js:638): the sum of squared shares; `null` when the shares
      are unavailable. */
  function Hhi(rows: seq<Entry>): (h: Option<real>)
    ensures h.None? <==> !Available(rows)
    ensures h.Some? ==> h.value >= 1.0 / (|rows| as real) > 0.0
  {
    if Available(rows) then
      SharesAtLeastEqual(rows);
      Some(SumSquares(Shares(rows, Total(rows))))
    else None
  }

  /** The risk tiles of the concentration card. */
  datatype Risk = Risk(top3: real, top5: real, top10: real, hhi: real, lpAll: Option<real>, lpEx: Option<real>)

  /** The average productivity level with all economies and without the one
      with the largest GDP (app.js:640-642). */
  datatype Sensitivity = Sensitivity(all: Option<real>, excluding: Option<real>)

  function LpSensitivity(data: seq<Row>): (s: Sensitivity)
    ensures s.all == AvgIndicator(data, LpId)
    ensures ArgmaxEconomy(data, GdpId).None? ==> s.excluding.None?
    ensures ArgmaxEconomy(data, GdpId).Some? ==>
              s.excluding == AvgIndicatorExcluding(data, LpId, ArgmaxEconomy(data, GdpId).value.name)
    ensures s.excluding.Some? ==> s.all.Some?
  {
    var largest := ArgmaxEconomy(data, GdpId);
    var all := AvgIndicator(data, LpId);
    if largest.Some? && largest.value.name != "" then
      Sensitivity(all, AvgIndicatorExcluding(data, LpId, largest.value.name))
    else
      Sensitivity(all, None)
  }

  /** The concentration card (app.js:632-642): present exactly when there are
      GDP rows with a non-zero total. */
  function ConcentrationRisk(data: seq<Row>): (r: Option<Risk>)
    ensures r.None? <==> !Available(GdpRows(data))
    ensures r.Some? ==> r.value.top3 == TopShare(GdpRows(data), 3).value
    ensures r.Some? ==> r.value.top5 == TopShare(GdpRows(data), 5).value
    ensures r.Some? ==> r.value.top10 == TopShare(GdpRows(data), 10).value
    ensures r.Some? ==> r.value.hhi == Hhi(GdpRows(data)).value
    ensures r.Some? ==> r.value.lpAll == AvgIndicator(data, LpId)
    ensures r.Some? && ArgmaxEconomy(data, GdpId).None? ==> r.value.lpEx.None?
    ensures r.Some? && ArgmaxEconomy(data, GdpId).Some? ==>
              r.value.lpEx == AvgIndicatorExcluding(data, LpId, ArgmaxEconomy(data, GdpId).value.name)
  {
    var rows := GdpRows(data);
    if Available(rows) then
      var sens := LpSensitivity(data);
      Some(Risk(TopShare(rows, 3).value, TopShare(rows, 5).value, TopShare(rows, 10).value,
                Hhi(rows).value, sens.all, sens.excluding))
    else None
  }

  // Arithmetic over plain reals, kept apart so that no larger proof sees it.

  lemma DivAdd(a: real, b: real, t: real)
    requires t != 0.0
    ensures a / t + b / t == (a + b) / t
  {
  }

  lemma DivMonotone(a: real, b: real, t: real)
    requires t > 0.0 && a <= b
    ensures a / t <= b / t
  {
    assert b / t - a / t == (b - a) / t;
  }

  lemma UnitInterval(v: real, t: real)
    requires t > 0.0 && 0.0 <= v <= t
    ensures 0.0 <= v / t <= 1.0
  {
    DivMonotone(v, t, t);
    DivMonotone(0.0, v, t);
  }

  lemma SquareAtMost(x: real)
    requires 0.0 <= x <= 1.0
    ensures x * x <= x
  {
    assert x * x <= x * 1.0;
  }

  /** One step of the Cauchy-Schwarz induction: from n * s2 >= s1 * s1 for n
      terms to the same inequality after adding a term x. */
  lemma CauchyStep(n: real, s1: real, s2: real, x: real)
    requires n >= 0.0 && n * s2 >= s1 * s1
    requires n == 0.0 ==> s1 == 0.0 && s2 == 0.0
    ensures (n + 1.0) * (s2 + x * x) >= (s1 + x) * (s1 + x)
  {
    if n > 0.0 {
      var d := (n + 1.0) * (s2 + x * x) - (s1 + x) * (s1 + x);
      assert n * d == n * (n * s2 - s1 * s1) + (n * s2 - s1 * s1) + (s1 - n * x) * (s1 - n * x);
      assert n * (n * s2 - s1 * s1) >= 0.0;
      assert (s1 - n * x) * (s1 - n * x) >= 0.0 by {
        if s1 - n * x < 0.0 {
          assert (n * x - s1) * (n * x - s1) >= 0.0;
        }
      }
      assert n * d >= 0.0;
    }
  }

  /** The shares add up to the total over itself. */
  lemma {:induction false} SharesSum(rows: seq<Entry>, t: real)
    requires t != 0.0
    ensures SumOf(Shares(rows, t)) == Total(rows) / t
    decreases |rows|
  {
    if |rows| > 0 {
      var init := rows[..|rows| - 1];
      var v := rows[|rows| - 1].v;
      SharesSum(init, t);
      var s := Shares(rows, t);
      assert s[..|s| - 1] == Shares(init, t);
      assert EntryValues(rows)[..|rows| - 1] == EntryValues(init);
      assert s[|s| - 1] == v / t;
      DivAdd(Total(init), v, t);
    }
  }

  /** The shares sum to one. */
  lemma SharesSumToOne(rows: seq<Entry>)
    requires Available(rows)
    ensures SumOf(Shares(rows, Total(rows))) == 1.0
  {
    SharesSum(rows, Total(rows));
  }

  lemma {:induction false} SumSquaresAtMostSum(s: seq<real>)
    requires forall k :: 0 <= k < |s| ==> 0.0 <= s[k] <= 1.0
    ensures SumSquares(s) <= SumOf(s)
    decreases |s|
  {
    if |s| > 0 {
      assert forall k :: 0 <= k < |s| - 1 ==> s[..|s| - 1][k] == s[k];
      var init := s[..|s| - 1];
      var x := s[|s| - 1];
      SumSquaresAtMostSum(init);
      SquareAtMost(x);
      assert SumSquares(s) == SumSquares(init) + x * x;
      assert SumOf(s) == SumOf(init) + x;
    }
  }

  /** A term of a non-negative sum is at most the sum. */
  lemma TermAtMostSum(s: seq<real>, k: nat)
    requires k < |s|
    requires forall i :: 0 <= i < |s| ==> s[i] >= 0.0
    ensures s[k] <= SumOf(s)
  {
    SumOfPrefixLe(s, k + 1);
    SumOfNonNeg(s[..k]);
    assert s[..k + 1][..k] == s[..k];
  }

  predicate NonNegative(rows: seq<Entry>)
  {
    forall k :: 0 <= k < |rows| ==> rows[k].v >= 0.0
  }

  /** With non-negative values every share lies in [0, 1]. */
  lemma SharesInUnitInterval(rows: seq<Entry>)
    requires Available(rows) && NonNegative(rows)
    ensures Total(rows) > 0.0
    ensures forall k :: 0 <= k < |rows| ==> 0.0 <= Shares(rows, Total(rows))[k] <= 1.0
  {
    var vs := EntryValues(rows);
    var t := Total(rows);
    SumOfNonNeg(vs);
    forall k | 0 <= k < |rows|
      ensures 0.0 <= Shares(rows, t)[k] <= 1.0
    {
      TermAtMostSum(vs, k);
      UnitInterval(rows[k].v, t);
    }
  }

  /** With non-negative values the index lies in (0, 1]. */
  lemma HhiAtMostOne(rows: seq<Entry>)
    requires Available(rows) && NonNegative(rows)
    ensures 0.0 < Hhi(rows).value <= 1.0
  {
    SharesInUnitInterval(rows);
    SharesSumToOne(rows);
    SumSquaresAtMostSum(Shares(rows, Total(rows)));
  }

  /** n * (sum of squares) >= (sum)^2 for n terms. */
  lemma {:induction false} CauchySchwarz(s: seq<real>)
    ensures (|s| as real) * SumSquares(s) >= SumOf(s) * SumOf(s)
    decreases |s|
  {
    if |s| > 0 {
      var init := s[..|s| - 1];
      CauchySchwarz(init);
      CauchyStep(|init| as real, SumOf(init), SumSquares(init), s[|s| - 1]);
    }
  }

  lemma ReciprocalBound(n: real, s1: real, h: real)
    requires n > 0.0 && n * h >= s1 * s1 && s1 == 1.0
    ensures h >= 1.0 / n > 0.0
  {
    assert n * h >= 1.0;
    DivMonotone(1.0, n * h, n);
    assert (n * h) / n == h;
  }

  /** The sum of squared shares is at least 1/n: n economies are never less
      concentrated than n equal shares. */
  lemma SharesAtLeastEqual(rows: seq<Entry>)
    requires Available(rows)
    ensures SumSquares(Shares(rows, Total(rows))) >= 1.0 / (|rows| as real) > 0.0
  {
    SharesSumToOne(rows);
    UnitSumSquares(Shares(rows, Total(rows)));
  }

  /** Terms summing to one have squares summing to at least 1/n. */
  lemma UnitSumSquares(s: seq<real>)
    requires |s| > 0 && SumOf(s) == 1.0
    ensures SumSquares(s) >= 1.0 / (|s| as real) > 0.0
  {
    CauchySchwarz(s);
    ReciprocalBound(|s| as real, SumOf(s), SumSquares(s));
  }

  lemma {:induction false} SumSquaresConstant(s: seq<real>, x: real)
    requires forall k :: 0 <= k < |s| ==> s[k] == x
    ensures SumSquares(s) == (|s| as real) * (x * x)
    decreases |s|
  {
    if |s| > 0 {
      SumSquaresConstant(s[..|s| - 1], x);
    }
  }

  lemma EqualShareArithmetic(n: real, c: real)
    requires n > 0.0 && c > 0.0
    ensures c / (n * c) == 1.0 / n
    ensures n * ((1.0 / n) * (1.0 / n)) == 1.0 / n
  {
  }

  /** n economies of equal positive size have index 1/n. */
  lemma HhiEqualShares(rows: seq<Entry>, c: real)
    requires |rows| > 0 && c > 0.0
    requires forall k :: 0 <= k < |rows| ==> rows[k].v == c
    ensures Available(rows)
    ensures Hhi(rows).value == 1.0 / (|rows| as real)
  {
    var n := |rows| as real;
    var vs := EntryValues(rows);
    SumOfBounds(vs, c, c);
    assert Total(rows) == n * c;
    EqualShareArithmetic(n, c);
    var s := Shares(rows, n * c);
    forall k | 0 <= k < |s|
      ensures s[k] == 1.0 / n
    {
      assert s[k] == c / (n * c);
    }
    SumSquaresConstant(s, 1.0 / n);
  }

  /** Conversely, an index of exactly 1/n forces equal values: the squared
      deviations of the shares from 1/n sum to the index minus 1/n. */
  lemma HhiOnlyEqualShares(rows: seq<Entry>)
    requires Available(rows) && Hhi(rows).value == 1.0 / (|rows| as real)
    ensures forall i, j :: 0 <= i < j < |rows| ==> rows[i].v == rows[j].v
  {
    var n := |rows| as real;
    var t := Total(rows);
    var s := Shares(rows, t);
    SharesSumToOne(rows);
    assert SumSquares(s) == 1.0 / n;
    SumDevExpand(s, 1.0 / n);
    DevAtReciprocal(n, SumSquares(s), SumOf(s), SumDev(s, 1.0 / n));
    SumDevZero(s, 1.0 / n);
    EqualSharesEqualValues(rows, t, 1.0 / n);
  }

  /** Rows whose shares of the same total are all equal hold equal values. */
  lemma EqualSharesEqualValues(rows: seq<Entry>, t: real, c: real)
    requires t != 0.0
    requires forall k :: 0 <= k < |rows| ==> Shares(rows, t)[k] == c
    ensures forall i, j :: 0 <= i < j < |rows| ==> rows[i].v == rows[j].v
  {
    var s := Shares(rows, t);
    forall i, j | 0 <= i < j < |rows|
      ensures rows[i].v == rows[j].v
    {
      assert s[i] == rows[i].v / t && s[j] == rows[j].v / t;
      DivCancel(rows[i].v, rows[j].v, t);
    }
  }

  /** For positive values the index is 1/n exactly when all values, and so
      all shares, are equal. */
  lemma HhiEqualIff(rows: seq<Entry>)
    requires Available(rows)
    requires forall k :: 0 <= k < |rows| ==> rows[k].v > 0.0
    ensures Hhi(rows).value == 1.0 / (|rows| as real) <==> forall i, j :: 0 <= i < j < |rows| ==> rows[i].v == rows[j].v
  {
    if forall i, j :: 0 <= i < j < |rows| ==> rows[i].v == rows[j].v {
      var c := rows[0].v;
      forall k | 0 <= k < |rows|
        ensures rows[k].v == c
      {
        if k > 0 {
          assert rows[0].v == rows[k].v;
        }
      }
      HhiEqualShares(rows, c);
    }
    if Hhi(rows).value == 1.0 / (|rows| as real) {
      HhiOnlyEqualShares(rows);
    }
  }

  /** Sum of squared deviations from `c`, accumulated left to right. */
  function SumDev(s: seq<real>, c: real): real
  {
    if |s| == 0 then 0.0 else SumDev(s[..|s| - 1], c) + (s[|s| - 1] - c) * (s[|s| - 1] - c)
  }

  lemma {:induction false} SumDevExpand(s: seq<real>, c: real)
    ensures SumDev(s, c) == SumSquares(s) - 2.0 * c * SumOf(s) + (|s| as real) * (c * c)
    decreases |s|
  {
    if |s| > 0 {
      SumDevExpand(s[..|s| - 1], c);
      SumDevExpandStep(s, c);
    }
  }

  lemma SumDevExpandStep(s: seq<real>, c: real)
    requires |s| > 0
    requires var init := s[..|s| - 1];
      SumDev(init, c) == SumSquares(init) - 2.0 * c * SumOf(init) + (|init| as real) * (c * c)
    ensures SumDev(s, c) == SumSquares(s) - 2.0 * c * SumOf(s) + (|s| as real) * (c * c)
  {
    var init := s[..|s| - 1];
    var x := s[|s| - 1];
    assert SumDev(s, c) == SumDev(init, c) + (x - c) * (x - c);
    assert SumSquares(s) == SumSquares(init) + x * x;
    assert SumOf(s) == SumOf(init) + x;
    assert |s| as real == |init| as real + 1.0;
    DevStep(SumDev(init, c), SumSquares(init), SumOf(init), |init| as real, x, c,
            SumDev(s, c), SumSquares(s), SumOf(s), |s| as real);
  }

  lemma DevStep(d: real, q: real, t: real, n: real, x: real, c: real, d1: real, q1: real, t1: real, n1: real)
    requires d == q - 2.0 * c * t + n * (c * c)
    requires d1 == d + (x - c) * (x - c) && q1 == q + x * x && t1 == t + x && n1 == n + 1.0
    ensures d1 == q1 - 2.0 * c * t1 + n1 * (c * c)
  {
  }

  /** At `c = 1/n`, with terms summing to one and squares summing to `1/n`,
      the deviations sum to zero. */
  lemma DevAtReciprocal(n: real, q: real, t: real, d: real)
    requires n > 0.0 && q == 1.0 / n && t == 1.0
    requires d == q - 2.0 * (1.0 / n) * t + n * ((1.0 / n) * (1.0 / n))
    ensures d == 0.0
  {
    EqualShareArithmetic(n, 1.0);
  }

  /** Squared deviations are never negative, and they sum to zero only when
      every term equals `c`. */
  lemma {:induction false} SumDevZero(s: seq<real>, c: real)
    ensures SumDev(s, c) >= 0.0
    ensures SumDev(s, c) == 0.0 ==> forall k :: 0 <= k < |s| ==> s[k] == c
    decreases |s|
  {
    if |s| > 0 {
      var init := s[..|s| - 1];
      var x := s[|s| - 1];
      SumDevZero(init, c);
      NonNegativeSquare(x - c);
      assert SumDev(s, c) == SumDev(init, c) + (x - c) * (x - c);
      if SumDev(s, c) == 0.0 {
        assert (x - c) * (x - c) <= 0.0;
        ZeroSquare(x - c);
        assert SumDev(init, c) == 0.0;
        forall k | 0 <= k < |s|
          ensures s[k] == c
        {
          if k < |init| {
            assert s[k] == init[k];
          }
        }
      }
    }
  }

  lemma NonNegativeSquare(e: real)
    ensures e * e >= 0.0
  {
    if e < 0.0 {
      assert (-e) * (-e) >= 0.0;
    }
  }

  /** A square that is not positive has a zero root. */
  lemma ZeroSquare(e: real)
    requires e * e <= 0.0
    ensures e == 0.0
  {
    SquareOverRoot(e);
  }

  lemma SquareOverRoot(e: real)
    ensures e != 0.0 ==> e * e / e == e && e * e / e == (e * e) * (1.0 / e)
  {
  }

  lemma DivCancel(a: real, b: real, t: real)
    requires t != 0.0 && a / t == b / t
    ensures a == b
  {
    assert a == (a / t) * t;
    assert b == (b / t) * t;
  }

  /** The worked example: GDP 60, 30 and 10 give shares 0.6, 0.3 and 0.1, an
      index of 0.36 + 0.09 + 0.01 = 0.46 and a top-1 share of 0.6. */
  lemma HhiThreeEconomies()
    ensures var rows := [Entry("C", 60.0), Entry("B", 30.0), Entry("A", 10.0)];
      Hhi(rows) == Some(0.46) && TopShare(rows, 1) == Some(0.6)
  {
    var rows := [Entry("C", 60.0), Entry("B", 30.0), Entry("A", 10.0)];
    ThreeEconomiesTotal();
    var s := Shares(rows, 100.0);
    assert s == [0.6, 0.3, 0.1];
    ThreeEconomiesSquares();
    assert Take(rows, 1) == [rows[0]];
    assert EntryValues([rows[0]]) == [60.0];
    assert SumOf([60.0]) == 60.0 by {
      assert [60.0][..0] == [];
    }
  }

  lemma ThreeEconomiesTotal()
    ensures Total([Entry("C", 60.0), Entry("B", 30.0), Entry("A", 10.0)]) == 100.0
  {
    assert EntryValues([Entry("C", 60.0), Entry("B", 30.0), Entry("A", 10.0)]) == [60.0, 30.0, 10.0];
    assert [60.0, 30.0, 10.0][..2] == [60.0, 30.0];
    assert [60.0, 30.0][..1] == [60.0];
    assert [60.0][..0] == [];
  }

  lemma ThreeEconomiesSquares()
    ensures SumSquares([0.6, 0.3, 0.1]) == 0.46
  {
    assert [0.6, 0.3, 0.1][..2] == [0.6, 0.3];
    assert [0.6, 0.3][..1] == [0.6];
    assert [0.6][..0] == [];
  }


  /** The tooltip's example: four economies of 25% each give an index of 0.25. */
  lemma HhiFourEqual(rows: seq<Entry>, c: real)
    requires |rows| == 4 && c > 0.0
    requires forall k :: 0 <= k < 4 ==> rows[k].v == c
    ensures Hhi(rows) == Some(0.25)
  {
    HhiEqualShares(rows, c);
  }

  /** With non-negative values the top shares grow with k and never exceed
      one: top3 <= top5 <= top10 <= 1. */
  lemma TopShareMonotone(rows: seq<Entry>, j: nat, k: nat)
    requires Available(rows) && NonNegative(rows) && j <= k
    ensures 0.0 <= TopShare(rows, j).value <= TopShare(rows, k).value <= 1.0
  {
    var a := Take(rows, j);
    var b := Take(rows, k);
    PrefixTotals(rows, |a|, |b|);
    ShareChain(Total(a), Total(b), Total(rows));
  }

  /** With non-negative values a shorter prefix has a smaller total. */
  lemma PrefixTotals(rows: seq<Entry>, i: nat, j: nat)
    requires NonNegative(rows) && i <= j <= |rows|
    ensures 0.0 <= Total(rows[..i]) <= Total(rows[..j]) <= Total(rows)
  {
    var vs := EntryValues(rows);
    EntryValuesPrefix(rows, i);
    EntryValuesPrefix(rows, j);
    assert vs[..i] == vs[..j][..i];
    SumOfPrefixLe(vs[..j], i);
    SumOfPrefixLe(vs, j);
    SumOfNonNeg(vs[..i]);
  }

  lemma ShareChain(a: real, b: real, t: real)
    requires 0.0 <= a <= b <= t && t > 0.0
    ensures 0.0 <= a / t <= b / t <= 1.0
  {
    DivMonotone(0.0, a, t);
    DivMonotone(a, b, t);
    DivMonotone(b, t, t);
  }

  /** The card's three shares are ordered and at most one. */
  lemma RiskShares(data: seq<Row>)
    requires ConcentrationRisk(data).Some?
    requires NonNegative(GdpRows(data))
    ensures var r := ConcentrationRisk(data).value;
            0.0 <= r.top3 <= r.top5 <= r.top10 <= 1.0 && 0.0 < r.hhi <= 1.0
  {
    var rows := GdpRows(data);
    TopShareMonotone(rows, 3, 5);
    TopShareMonotone(rows, 5, 10);
    HhiAtMostOne(rows);
  }
}
