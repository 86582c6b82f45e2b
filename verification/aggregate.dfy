/** Column aggregators of the summary view: sum, average, median, min/max,
    arg-max/arg-min and the average that leaves one economy out. Each is a
    total function of the dataset with `None` for the source's `null`. */
module Aggregate {
  import opened Common
  import opened Dataset
  import Ordering

  lemma {:induction false} ValuesAppend(d1: seq<Row>, d2: seq<Row>, id: ColumnId)
    ensures Values(d1 + d2, id) == Values(d1, id) + Values(d2, id)
    decreases |d2|
  {
    if |d2| == 0 {
      assert d1 + d2 == d1;
    } else {
      assert (d1 + d2)[..|d1 + d2| - 1] == d1 + d2[..|d2| - 1];
      ValuesAppend(d1, d2[..|d2| - 1], id);
    }
  }

  /** `sumIndicator` (app.js:163-170): missing cells are skipped, never
      counted as zero. */
  function SumIndicator(data: seq<Row>, id: ColumnId): (s: real)
    ensures (forall i :: 0 <= i < |data| ==> !IsNum(data[i], id)) ==> s == 0.0
    ensures (forall i :: 0 <= i < |data| && IsNum(data[i], id) ==> Cell(data[i], id).value >= 0.0) ==> s >= 0.0
  {
    var vs := Values(data, id);
    assert (forall i :: 0 <= i < |data| && IsNum(data[i], id) ==> Cell(data[i], id).value >= 0.0) ==> SumOf(vs) >= 0.0 by {
      if forall i :: 0 <= i < |data| && IsNum(data[i], id) ==> Cell(data[i], id).value >= 0.0 {
        ValuesMembers(data, id);
        SumOfNonNeg(vs);
      }
    }
    SumOf(vs)
  }

  /** The sum of a dataset split in two is the sum of the parts, and a row
      without a numeric cell leaves the sum unchanged. */
  lemma SumIndicatorSplit(d1: seq<Row>, d2: seq<Row>, id: ColumnId)
    ensures SumIndicator(d1 + d2, id) == SumIndicator(d1, id) + SumIndicator(d2, id)
    ensures forall r :: !IsNum(r, id) ==> SumIndicator(d1 + [r], id) == SumIndicator(d1, id)
  {
    ValuesAppend(d1, d2, id);
    SumOfAppend(Values(d1, id), Values(d2, id));
    forall r | !IsNum(r, id)
      ensures SumIndicator(d1 + [r], id) == SumIndicator(d1, id)
    {
      ValuesAppend(d1, [r], id);
      assert Values([r], id) == [];
      assert Values(d1, id) + [] == Values(d1, id);
    }
  }

  /** A single row contributes its numeric cell, or nothing; with
      `SumIndicatorSplit` this fixes the sum of every dataset. */
  lemma SumIndicatorRow(r: Row, id: ColumnId)
    ensures SumIndicator([r], id) == if IsNum(r, id) then Cell(r, id).value else 0.0
  {
    assert [r][..0] == [];
    if IsNum(r, id) {
      var v := Cell(r, id).value;
      assert Values([r], id) == [v];
      assert [v][..0] == [];
      assert SumOf([v]) == SumOf([]) + v;
    }
  }

  /** `avgIndicator` (app.js:171-178): `null` without numeric values,
      otherwise the mean, which lies between the minimum and the maximum. */
  function AvgIndicator(data: seq<Row>, id: ColumnId): (a: Option<real>)
    ensures a.None? <==> forall i :: 0 <= i < |data| ==> !IsNum(data[i], id)
    ensures a.None? <==> |Values(data, id)| == 0
    ensures a.Some? ==> IsQuotient(a.value, SumIndicator(data, id), |Values(data, id)| as real)
    ensures a.Some? ==> MinOf(Values(data, id)) <= a.value <= MaxOf(Values(data, id))
  {
    var vs := Values(data, id);
    if |vs| == 0 then None
    else
      MeanBetween(vs);
      Some(Quotient(SumIndicator(data, id), |vs| as real))
  }

  /** The middle of an ascending sequence: the middle element for an odd
      length, the mean of the two middle elements for an even length. */
  function Middle(a: seq<real>): real
    requires |a| > 0
  {
    var mid := |a| / 2;
    if |a| % 2 == 1 then a[mid] else (a[mid - 1] + a[mid]) / 2.0
  }

  lemma MiddleOfSorted(a: seq<real>)
    requires |a| > 0
    requires forall i, j :: 0 <= i < j < |a| ==> a[i] <= a[j]
    ensures a[0] <= Middle(a) <= a[|a| - 1]
    ensures |a| % 2 == 1 ==> Middle(a) in a
    ensures 2 * CountLe(a, Middle(a)) >= |a|
    ensures 2 * CountGe(a, Middle(a)) >= |a|
  {
    var n := |a|;
    var mid := n / 2;
    if n % 2 == 1 {
      assert n == 2 * mid + 1;
      OddMiddle(a, mid);
    } else {
      assert n == 2 * mid;
      EvenMiddle(a, mid);
    }
  }

  /** An odd length: the middle element has at least half of the elements
      on each side. */
  lemma OddMiddle(a: seq<real>, mid: nat)
    requires |a| == 2 * mid + 1
    requires forall i, j :: 0 <= i < j < |a| ==> a[i] <= a[j]
    ensures a[0] <= a[mid] <= a[|a| - 1]
    ensures 2 * CountLe(a, a[mid]) >= |a| && 2 * CountGe(a, a[mid]) >= |a|
  {
    CountLeAtLeast(a, a[mid], mid + 1);
    CountGeAtLeast(a, a[mid], mid);
  }

  /** An even length: the mean of the two middle elements lies between them,
      so half of the elements lie on each side of it. */
  lemma EvenMiddle(a: seq<real>, mid: nat)
    requires |a| == 2 * mid && mid > 0
    requires forall i, j :: 0 <= i < j < |a| ==> a[i] <= a[j]
    ensures var m := (a[mid - 1] + a[mid]) / 2.0;
      a[0] <= m <= a[|a| - 1] && 2 * CountLe(a, m) >= |a| && 2 * CountGe(a, m) >= |a|
  {
    var m := (a[mid - 1] + a[mid]) / 2.0;
    assert a[mid - 1] <= m <= a[mid];
    CountLeAtLeast(a, m, mid);
    CountGeAtLeast(a, m, mid);
  }

  /** `medianOf` (app.js:387-393), also the body of `medianIndicator`
      (app.js:180-191): sort ascending, then take the middle. `null` for no
      values; otherwise between the least and the greatest value, and one of
      the values when their count is odd. */
  function MedianOf(values: seq<real>): (m: Option<real>)
    ensures m.None? <==> |values| == 0
    ensures m.Some? ==> MinOf(values) <= m.value <= MaxOf(values)
    ensures m.Some? && |values| % 2 == 1 ==> m.value in values
  {
    var a := Ordering.SortReals(values);
    if |a| == 0 then None
    else
      MiddleOfSorted(a);
      Ordering.PermutationMembers(a, values);
      Ordering.PermutationMembers(values, a);
      assert MinOf(values) <= a[0] && a[|a| - 1] <= MaxOf(values) by {
        assert MinOf(values) in a;
        assert MaxOf(values) in a;
      }
      Some(Middle(a))
  }

  /** The median splits the values in halves: at least half of them are at
      most the median and at least half are at least the median. */
  lemma MedianIsMiddle(values: seq<real>)
    requires |values| > 0
    ensures 2 * CountLe(values, MedianOf(values).value) >= |values|
    ensures 2 * CountGe(values, MedianOf(values).value) >= |values|
  {
    var a := Ordering.SortReals(values);
    MiddleOfSorted(a);
    CountPermutation(a, values, Middle(a));
  }

  /** The median from any ascending arrangement of the values: the middle
      element for an odd count, the mean of the two middle elements for an
      even count, `null` for none. */
  lemma MedianValue(values: seq<real>, a: seq<real>)
    requires multiset(a) == multiset(values)
    requires forall i, j :: 0 <= i < j < |a| ==> a[i] <= a[j]
    ensures MedianOf(values) == if |a| == 0 then None
              else Some(if |a| % 2 == 1 then a[|a| / 2] else (a[|a| / 2 - 1] + a[|a| / 2]) / 2.0)
  {
    assert |a| == |multiset(a)| == |multiset(values)| == |values|;
    Ordering.AscendingUnique(Ordering.SortReals(values), a);
  }

  /** The worked examples: `[10, 20, 30]` gives 20, and `[10, 20, 30, 40]`,
      in any order, gives 25. */
  lemma MedianOddExample()
    ensures MedianOf([10.0, 20.0, 30.0]) == Some(20.0)
  {
    var a := [10.0, 20.0, 30.0];
    MedianValue(a, a);
  }

  lemma MedianEvenExample()
    ensures MedianOf([40.0, 10.0, 30.0, 20.0]) == Some(25.0)
  {
    var a := [10.0, 20.0, 30.0, 40.0];
    var v := [40.0, 10.0, 30.0, 20.0];
    assert v == [a[3]] + [a[0]] + [a[2]] + [a[1]];
    assert multiset(a) == multiset(v);
    MedianValue(v, a);
  }

  /** `medianIndicator` (app.js:180-191): the median of the column's numeric
      values, `null` when there are none. */
  function MedianIndicator(data: seq<Row>, id: ColumnId): (m: Option<real>)
    ensures m.None? <==> forall i :: 0 <= i < |data| ==> !IsNum(data[i], id)
    ensures m.Some? ==> MinOf(Values(data, id)) <= m.value <= MaxOf(Values(data, id))
    ensures m.Some? && |Values(data, id)| % 2 == 1 ==> m.value in Values(data, id)
  {
    MedianOf(Values(data, id))
  }

  /** The column median from any ascending arrangement of its numeric cells. */
  lemma MedianIndicatorValue(data: seq<Row>, id: ColumnId, a: seq<real>)
    requires multiset(a) == multiset(Values(data, id))
    requires forall i, j :: 0 <= i < j < |a| ==> a[i] <= a[j]
    ensures MedianIndicator(data, id) == if |a| == 0 then None
              else Some(if |a| % 2 == 1 then a[|a| / 2] else (a[|a| / 2 - 1] + a[|a| / 2]) / 2.0)
  {
    MedianValue(Values(data, id), a);
  }

  /** The `{ min, max }` pair of `minMaxIndicator`. */
  datatype Range = Range(min: Option<real>, max: Option<real>)

  /** `minMaxIndicator` (app.js:193-202): both `null` without numeric values,
      otherwise the least and the greatest numeric value. */
  function MinMaxIndicator(data: seq<Row>, id: ColumnId): (r: Range)
    ensures r.min.None? <==> forall i :: 0 <= i < |data| ==> !IsNum(data[i], id)
    ensures r.max.None? <==> r.min.None?
    ensures r.min.Some? ==> r.min.value in Values(data, id)
    ensures r.min.Some? ==>
              forall i :: 0 <= i < |data| && IsNum(data[i], id) ==> r.min.value <= Cell(data[i], id).value
    ensures r.max.Some? ==> r.max.value in Values(data, id)
    ensures r.max.Some? ==>
              forall i :: 0 <= i < |data| && IsNum(data[i], id) ==> Cell(data[i], id).value <= r.max.value
  {
    if |data| == 0 then Range(None, None)
    else
      var d := data[..|data| - 1];
      var row := data[|data| - 1];
      var prev := MinMaxIndicator(d, id);
      assert forall i :: 0 <= i < |d| ==> d[i] == data[i];
      if !IsNum(row, id) then prev
      else
        var v := Cell(row, id).value;
        var lo := if prev.min.None? || v < prev.min.value then Some(v) else prev.min;
        var hi := if prev.max.None? || v > prev.max.value then Some(v) else prev.max;
        Range(lo, hi)
  }

  /** Which extreme an arg-search looks for. */
  datatype Direction = Highest | Lowest

  /** The strict comparison of the arg-search loops: `v > best.v` for the
      maximum, `v < best.v` for the minimum. */
  predicate Beats(dir: Direction, a: real, b: real)
  {
    match dir
    case Highest => a > b
    case Lowest => a < b
  }

  function EntryAt(data: seq<Row>, id: ColumnId, i: nat): Entry
    requires i < |data| && Eligible(data[i], id)
  {
    Entry(data[i].economy.value, Cell(data[i], id).value)
  }

  /** Row `i` holds an extreme value among the eligible rows and is the first
      eligible row that does. */
  ghost predicate FirstExtreme(data: seq<Row>, id: ColumnId, dir: Direction, i: nat)
  {
    && i < |data|
    && Eligible(data[i], id)
    && (forall j :: 0 <= j < |data| && Eligible(data[j], id) ==>
          !Beats(dir, Cell(data[j], id).value, Cell(data[i], id).value))
    && (forall j :: 0 <= j < i && Eligible(data[j], id) ==>
          Beats(dir, Cell(data[i], id).value, Cell(data[j], id).value))
  }

  /** The loop of `argmaxEconomy`/`argminEconomy`, returning the position of
      the row it keeps. */
  function ArgIndex(data: seq<Row>, id: ColumnId, dir: Direction): (k: Option<nat>)
    ensures k.None? <==> forall i :: 0 <= i < |data| ==> !Eligible(data[i], id)
    ensures k.Some? ==> FirstExtreme(data, id, dir, k.value)
  {
    if |data| == 0 then None
    else
      var d := data[..|data| - 1];
      var last := |data| - 1;
      var prev := ArgIndex(d, id, dir);
      assert forall i :: 0 <= i < |d| ==> d[i] == data[i];
      if !Eligible(data[last], id) then prev
      else if prev.None? || Beats(dir, Cell(data[last], id).value, Cell(data[prev.value], id).value) then
        Some(last)
      else prev
  }

  /** `argmaxEconomy` (app.js:204-212): `null` exactly when no row has both a
      name and a numeric value; otherwise the first such row, in dataset
      order, whose value is at least every other eligible value. */
  function ArgmaxEconomy(data: seq<Row>, id: ColumnId): (best: Option<Entry>)
    ensures best.None? <==> forall i :: 0 <= i < |data| ==> !Eligible(data[i], id)
    ensures best.Some? ==>
              exists i :: (0 <= i < |data| && Eligible(data[i], id) &&
                best.value == EntryAt(data, id, i) &&
                (forall j :: 0 <= j < |data| && Eligible(data[j], id) ==> Cell(data[j], id).value <= best.value.v) &&
                (forall j :: 0 <= j < i && Eligible(data[j], id) ==> Cell(data[j], id).value < best.value.v))
  {
    match ArgIndex(data, id, Highest)
    case None => None
    case Some(i) => Some(EntryAt(data, id, i))
  }

  /** `argminEconomy` (app.js:214-222): the mirror image of ArgmaxEconomy. */
  function ArgminEconomy(data: seq<Row>, id: ColumnId): (best: Option<Entry>)
    ensures best.None? <==> forall i :: 0 <= i < |data| ==> !Eligible(data[i], id)
    ensures best.Some? ==>
              exists i :: (0 <= i < |data| && Eligible(data[i], id) &&
                best.value == EntryAt(data, id, i) &&
                (forall j :: 0 <= j < |data| && Eligible(data[j], id) ==> Cell(data[j], id).value >= best.value.v) &&
                (forall j :: 0 <= j < i && Eligible(data[j], id) ==> Cell(data[j], id).value > best.value.v))
  {
    match ArgIndex(data, id, Lowest)
    case None => None
    case Some(i) => Some(EntryAt(data, id, i))
  }

  /** The converse of ArgmaxEconomy's contract: the first eligible row whose
      value is maximal is the winner, whatever ties follow it. */
  lemma ArgmaxFirstWins(data: seq<Row>, id: ColumnId, i: nat)
    requires i < |data| && Eligible(data[i], id)
    requires forall j :: 0 <= j < |data| && Eligible(data[j], id) ==>
               Cell(data[j], id).value <= Cell(data[i], id).value
    requires forall j :: 0 <= j < i && Eligible(data[j], id) ==>
               Cell(data[j], id).value < Cell(data[i], id).value
    ensures ArgmaxEconomy(data, id) == Some(EntryAt(data, id, i))
  {
    var k := ArgIndex(data, id, Highest).value;
    assert FirstExtreme(data, id, Highest, k);
    assert k == i;
  }

  /** The same for ArgminEconomy: the first eligible row whose value is
      minimal is the winner. */
  lemma ArgminFirstWins(data: seq<Row>, id: ColumnId, i: nat)
    requires i < |data| && Eligible(data[i], id)
    requires forall j :: 0 <= j < |data| && Eligible(data[j], id) ==>
               Cell(data[j], id).value >= Cell(data[i], id).value
    requires forall j :: 0 <= j < i && Eligible(data[j], id) ==>
               Cell(data[j], id).value > Cell(data[i], id).value
    ensures ArgminEconomy(data, id) == Some(EntryAt(data, id, i))
  {
    var k := ArgIndex(data, id, Lowest).value;
    assert FirstExtreme(data, id, Lowest, k);
    assert k == i;
  }

  /** The values of the rows whose `Economy` is not `excludeName`; a row
      without a name is kept, since `undefined !== excludeName`. */
  function ValuesExcluding(data: seq<Row>, id: ColumnId, excludeName: string): (vs: seq<real>)
    ensures |vs| <= |Values(data, id)|
    ensures (forall i :: 0 <= i < |data| ==> data[i].economy != Some(excludeName)) ==> vs == Values(data, id)
    ensures |vs| == 0 <==> forall i :: 0 <= i < |data| && IsNum(data[i], id) ==> data[i].economy == Some(excludeName)
  {
    if |data| == 0 then []
    else
      var d := data[..|data| - 1];
      var r := data[|data| - 1];
      assert forall i :: 0 <= i < |d| ==> d[i] == data[i];
      var prev := ValuesExcluding(d, id, excludeName);
      if r.economy != Some(excludeName) && IsNum(r, id) then prev + [Cell(r, id).value] else prev
  }

  /** The kept values of a dataset split in two are those of the parts, and
      a single row contributes its numeric cell exactly when it is not named
      `excludeName`; together these fix `ValuesExcluding` on every dataset. */
  lemma {:induction false} ValuesExcludingAppend(d1: seq<Row>, d2: seq<Row>, id: ColumnId, excludeName: string)
    ensures ValuesExcluding(d1 + d2, id, excludeName)
            == ValuesExcluding(d1, id, excludeName) + ValuesExcluding(d2, id, excludeName)
    decreases |d2|
  {
    if |d2| == 0 {
      assert d1 + d2 == d1;
    } else {
      var d := d2[..|d2| - 1];
      var r := d2[|d2| - 1];
      assert d2 == d + [r];
      assert d1 + d2 == (d1 + d) + [r];
      ValuesExcludingAppend(d1, d, id, excludeName);
      ValuesExcludingSnoc(d1 + d, r, id, excludeName);
      ValuesExcludingSnoc(d, r, id, excludeName);
      var t := if r.economy != Some(excludeName) && IsNum(r, id) then [Cell(r, id).value] else [];
      ConcatGlue(ValuesExcluding(d1 + d2, id, excludeName), ValuesExcluding(d1 + d, id, excludeName),
                 ValuesExcluding(d1, id, excludeName), ValuesExcluding(d, id, excludeName),
                 ValuesExcluding(d2, id, excludeName), t);
    }
  }

  /** The contribution of one more row at the end. */
  lemma ValuesExcludingSnoc(front: seq<Row>, r: Row, id: ColumnId, excludeName: string)
    ensures ValuesExcluding(front + [r], id, excludeName)
            == ValuesExcluding(front, id, excludeName)
               + (if r.economy != Some(excludeName) && IsNum(r, id) then [Cell(r, id).value] else [])
  {
    assert (front + [r])[..|front|] == front;
  }

  lemma ValuesExcludingRow(r: Row, id: ColumnId, excludeName: string)
    ensures ValuesExcluding([r], id, excludeName)
            == if r.economy != Some(excludeName) && IsNum(r, id) then [Cell(r, id).value] else []
  {
    assert [r][..0] == [];
  }

  /** `avgIndicatorExcluding` (app.js:626-630): the mean over the numeric
      rows not named `excludeName`, `null` when no such row exists; it equals
      the plain average when no row carries that name. */
  function AvgIndicatorExcluding(data: seq<Row>, id: ColumnId, excludeName: string): (a: Option<real>)
    ensures a.None? <==> forall i :: 0 <= i < |data| && IsNum(data[i], id) ==> data[i].economy == Some(excludeName)
    ensures (forall i :: 0 <= i < |data| ==> data[i].economy != Some(excludeName)) ==> a == AvgIndicator(data, id)
    ensures a.Some? ==> IsQuotient(a.value, SumOf(ValuesExcluding(data, id, excludeName)),
                                   |ValuesExcluding(data, id, excludeName)| as real)
    ensures a.Some? ==> MinOf(ValuesExcluding(data, id, excludeName)) <= a.value
                        <= MaxOf(ValuesExcluding(data, id, excludeName))
  {
    var vs := ValuesExcluding(data, id, excludeName);
    if |vs| == 0 then None
    else
      MeanBetween(vs);
      Some(Quotient(SumOf(vs), |vs| as real))
  }
}
