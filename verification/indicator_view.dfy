/** The indicator view: which value of a row is shown in each display mode,
    the searched and sorted row list, and the geometry of the diverging bars
    around a common zero line. */
module IndicatorView {
  import opened Common
  import opened Dataset
  import opened Text
  import Ordering

  /** Which series the view shows: `data`, `projection` or `all`. */
  datatype Mode = DataOnly | ProjectionOnly | All

  /** The row order: `highest`, `lowest` or `alpha`. */
  datatype SortKey = Highest | Lowest | Alpha

  /** The columns of an indicator: its data column and, optionally, the
      column holding its projection. */
  datatype Series = Series(id: ColumnId, proj: Option<ColumnId>)

  /** `r.Economy || ""`. */
  function Name(r: Row): string
  {
    if r.economy.Some? then r.economy.value else ""
  }

  /** The data value `dv` of a row. */
  function DataVal(r: Row, s: Series): Option<real>
  {
    Cell(r, s.id)
  }

  /** The projection value `pv` of a row: none when the indicator has no
      projection column. */
  function ProjVal(r: Row, s: Series): Option<real>
  {
    if s.proj.Some? then Cell(r, s.proj.value) else None
  }

  /** `pickVal` (app.js:1173-1180): the value a row is ranked by. The data
      mode ranks by the data value, the projection mode by the projection,
      and the combined mode by the data value, falling back to the
      projection where the data value is missing. */
  function PickVal(r: Row, s: Series, mode: Mode): (v: Option<real>)
    ensures mode == DataOnly ==> v == DataVal(r, s)
    ensures mode == ProjectionOnly ==> v == ProjVal(r, s)
    ensures mode == All ==> (v.None? <==> DataVal(r, s).None? && ProjVal(r, s).None?)
    ensures mode == All && DataVal(r, s).Some? ==> v == DataVal(r, s)
    ensures mode == All && DataVal(r, s).None? ==> v == ProjVal(r, s)
  {
    var dv := DataVal(r, s);
    var pv := ProjVal(r, s);
    var useProj := mode != DataOnly && s.proj.Some?;
    var useData := mode != ProjectionOnly;
    if mode == DataOnly then dv
    else if mode == ProjectionOnly then pv
    else if useData && useProj then (if dv.Some? then dv else pv)
    else if useData then dv
    else pv
  }

  /** A picked value is the number in one of the indicator's own columns. */
  lemma PickValSource(r: Row, s: Series, mode: Mode)
    ensures PickVal(r, s, mode).Some? ==>
              Cell(r, s.id) == PickVal(r, s, mode)
              || (s.proj.Some? && Cell(r, s.proj.value) == PickVal(r, s, mode))
  {
  }

  /** The search text as the filter uses it: trimmed and lower-cased. */
  function Query(search: string): (q: string)
    ensures q == Lower(Trim(search))
    ensures |q| > 0 ==> !IsSpace(q[0])
  {
    var t := Trim(search);
    var q := Lower(t);
    assert |t| > 0 ==> !IsSpace(t[0]) && q[0] == LowerChar(t[0]);
    q
  }

  /** A row matches when its lower-cased name contains the query. */
  predicate Matches(r: Row, q: string)
  {
    Includes(Lower(Name(r)), q)
  }

  /** The rows that match `q`, in dataset order. */
  function MatchingRows(data: seq<Row>, q: string): (rs: seq<Row>)
    ensures |rs| <= |data|
    ensures forall x :: x in rs ==> x in data && Matches(x, q)
    ensures forall i :: 0 <= i < |data| && Matches(data[i], q) ==> data[i] in rs
  {
    if |data| == 0 then []
    else
      var n := |data| - 1;
      var prev := MatchingRows(data[..n], q);
      MatchingStep(data, q, prev);
      if Matches(data[n], q) then prev + [data[n]] else prev
  }

  /** One more row at the end is kept exactly when it matches. */
  lemma MatchingRowsSnoc(front: seq<Row>, r: Row, q: string)
    ensures MatchingRows(front + [r], q) == MatchingRows(front, q) + (if Matches(r, q) then [r] else [])
  {
    assert (front + [r])[..|front|] == front;
  }

  /** Matching distributes over concatenation, so the matches keep the
      dataset's order. */
  lemma {:induction false} MatchingRowsAppend(d1: seq<Row>, d2: seq<Row>, q: string)
    ensures MatchingRows(d1 + d2, q) == MatchingRows(d1, q) + MatchingRows(d2, q)
    decreases |d2|
  {
    if |d2| == 0 {
      assert d1 + d2 == d1;
    } else {
      var d := d2[..|d2| - 1];
      var r := d2[|d2| - 1];
      assert d2 == d + [r];
      assert d1 + d2 == (d1 + d) + [r];
      MatchingRowsAppend(d1, d, q);
      MatchingRowsSnoc(d1 + d, r, q);
      MatchingRowsSnoc(d, r, q);
      var t := if Matches(r, q) then [r] else [];
      ConcatGlue(MatchingRows(d1 + d2, q), MatchingRows(d1 + d, q), MatchingRows(d1, q),
                 MatchingRows(d, q), MatchingRows(d2, q), t);
    }
  }

  /** Each row occurs among the matches as often as in the dataset when it
      matches, and not at all otherwise. */
  lemma {:induction false} MatchingRowsCount(data: seq<Row>, q: string, x: Row)
    ensures multiset(MatchingRows(data, q))[x] == if Matches(x, q) then multiset(data)[x] else 0
    decreases |data|
  {
    if |data| > 0 {
      var front := data[..|data| - 1];
      var r := data[|data| - 1];
      assert data == front + [r];
      MatchingRowsCount(front, q, x);
      MatchingRowsSnoc(front, r, q);
    }
  }

  /** A single row is kept exactly when it matches. */
  lemma MatchingRowsOne(r: Row, q: string)
    ensures MatchingRows([r], q) == if Matches(r, q) then [r] else []
  {
    assert [r][..0] == [];
  }

  /** Extending the matches of all but the last row by the last row, when it
      matches, gives the matches of all rows. */
  lemma MatchingStep(data: seq<Row>, q: string, prev: seq<Row>)
    requires |data| > 0
    requires forall x :: x in prev ==> x in data[..|data| - 1] && Matches(x, q)
    requires forall i :: 0 <= i < |data| - 1 && Matches(data[i], q) ==> data[i] in prev
    ensures var rs := if Matches(data[|data| - 1], q) then prev + [data[|data| - 1]] else prev;
      && (forall x :: x in rs ==> x in data && Matches(x, q))
      && (forall i :: 0 <= i < |data| && Matches(data[i], q) ==> data[i] in rs)
  {
    var n := |data| - 1;
    assert forall x :: x in data[..n] ==> x in data;
  }

  /** The search step of `sortedRows` (app.js:1164-1167): an empty query
      keeps every row; otherwise the rows whose name contains it. */
  function Filter(data: seq<Row>, q: string): (rs: seq<Row>)
    ensures q == "" ==> rs == data
    ensures q != "" ==> forall x :: x in rs <==> x in data && Matches(x, q)
  {
    if q == "" then data else MatchingRows(data, q)
  }

  /** The filtered list keeps every matching row as often as the dataset
      holds it, drops the rest, and keeps dataset order across any split. */
  lemma FilterCountAndOrder(data: seq<Row>, q: string, x: Row, d1: seq<Row>, d2: seq<Row>)
    requires data == d1 + d2
    ensures multiset(Filter(data, q))[x] == if q == "" || Matches(x, q) then multiset(data)[x] else 0
    ensures Filter(data, q) == Filter(d1, q) + Filter(d2, q)
  {
    if q != "" {
      MatchingRowsCount(data, q, x);
      MatchingRowsAppend(d1, d2, q);
    }
  }

  /** The empty query occurs in every name, so the shortcut for it keeps
      exactly the rows the search itself would keep. */
  lemma {:induction false} EmptyQueryMatchesAll(data: seq<Row>)
    ensures MatchingRows(data, "") == data
  {
    if |data| > 0 {
      var n := |data| - 1;
      EmptyQueryMatchesAll(data[..n]);
      MatchesEmpty(data[n]);
      assert data[..n] + [data[n]] == data;
    }
  }

  /** Every name contains the empty query. */
  lemma MatchesEmpty(r: Row)
    ensures Matches(r, "")
  {
    assert OccursAt(Lower(Name(r)), "", 0);
  }

  /** "`a` may stay ahead of `b`": the comparator of `sortedRows`
      (app.js:1182-1196) returns at most zero. Rows without a value sort
      after rows with one and among themselves by name. */
  predicate RowLe(a: Row, b: Row, s: Series, mode: Mode, key: SortKey)
  {
    if key == Alpha then Ordering.StrLe(Name(a), Name(b))
    else
      var va := PickVal(a, s, mode);
      var vb := PickVal(b, s, mode);
      if va.None? && vb.None? then Ordering.StrLe(Name(a), Name(b))
      else if va.None? then false
      else if vb.None? then true
      else if key == Highest then vb.value - va.value <= 0.0
      else va.value - vb.value <= 0.0
  }

  lemma RowLeTotal(a: Row, b: Row, s: Series, mode: Mode, key: SortKey)
    ensures RowLe(a, b, s, mode, key) || RowLe(b, a, s, mode, key)
  {
    Ordering.StrLeTotal(Name(a), Name(b));
  }

  lemma RowLeTrans(a: Row, b: Row, c: Row, s: Series, mode: Mode, key: SortKey)
    requires RowLe(a, b, s, mode, key) && RowLe(b, c, s, mode, key)
    ensures RowLe(a, c, s, mode, key)
  {
    if Ordering.StrLe(Name(a), Name(b)) && Ordering.StrLe(Name(b), Name(c)) {
      Ordering.StrLeTrans(Name(a), Name(b), Name(c));
    }
  }

  /** The comparator of one sort key as a relation. */
  function RowOrder(s: Series, mode: Mode, key: SortKey): (Row, Row) -> bool
  {
    (a, b) => RowLe(a, b, s, mode, key)
  }

  /** The comparator is consistent, so the sort is well defined. */
  lemma RowLeTotalPreorder(s: Series, mode: Mode, key: SortKey)
    ensures Ordering.TotalPreorder(RowOrder(s, mode, key))
  {
    forall a, b
      ensures RowLe(a, b, s, mode, key) || RowLe(b, a, s, mode, key)
    {
      RowLeTotal(a, b, s, mode, key);
    }
    forall a, b, c | RowLe(a, b, s, mode, key) && RowLe(b, c, s, mode, key)
      ensures RowLe(a, c, s, mode, key)
    {
      RowLeTrans(a, b, c, s, mode, key);
    }
  }

  /** `sortedRows` (app.js:1163-1197): the matching rows, reordered. By name
      for `alpha`; otherwise the rows with a value come first, by value in
      the requested direction, and the rows without one follow by name. */
  function SortedRows(data: seq<Row>, s: Series, mode: Mode, key: SortKey, search: string): (rs: seq<Row>)
    ensures multiset(rs) == multiset(Filter(data, Query(search)))
    ensures key == Alpha ==>
              forall i, j :: 0 <= i < j < |rs| ==> Ordering.StrLe(Name(rs[i]), Name(rs[j]))
    ensures key != Alpha ==>
              forall i, j :: 0 <= i < j < |rs| && PickVal(rs[i], s, mode).None? ==> PickVal(rs[j], s, mode).None?
    ensures key != Alpha ==>
              forall i, j :: 0 <= i < j < |rs| && PickVal(rs[i], s, mode).None? ==>
                Ordering.StrLe(Name(rs[i]), Name(rs[j]))
    ensures key == Highest ==>
              forall i, j :: 0 <= i < j < |rs| && PickVal(rs[i], s, mode).Some? && PickVal(rs[j], s, mode).Some? ==>
                PickVal(rs[i], s, mode).value >= PickVal(rs[j], s, mode).value
    ensures key == Lowest ==>
              forall i, j :: 0 <= i < j < |rs| && PickVal(rs[i], s, mode).Some? && PickVal(rs[j], s, mode).Some? ==>
                PickVal(rs[i], s, mode).value <= PickVal(rs[j], s, mode).value
  {
    var rows := Filter(data, Query(search));
    RowLeTotalPreorder(s, mode, key);
    var rs := Ordering.SortBy(rows, RowOrder(s, mode, key));
    assert forall i, j :: 0 <= i < j < |rs| ==> RowLe(rs[i], rs[j], s, mode, key);
    rs
  }

  /** The sort is stable: rows the comparator ranks equal keep the order in
      which they matched the search, for every tie class `y`. */
  lemma SortedRowsStable(data: seq<Row>, s: Series, mode: Mode, key: SortKey, search: string, y: Row)
    ensures Ordering.Ties(SortedRows(data, s, mode, key, search), y, RowOrder(s, mode, key))
         == Ordering.Ties(Filter(data, Query(search)), y, RowOrder(s, mode, key))
  {
    RowLeTotalPreorder(s, mode, key);
    Ordering.SortByStable(Filter(data, Query(search)), RowOrder(s, mode, key), y);
  }

  /** Under a value sort, two rows holding the same value are tied, so they
      stay in dataset order. */
  lemma EqualValuesTie(a: Row, b: Row, s: Series, mode: Mode, key: SortKey)
    requires key != Alpha
    requires PickVal(a, s, mode).Some? && PickVal(b, s, mode) == PickVal(a, s, mode)
    ensures Ordering.Equivalent(a, b, RowOrder(s, mode, key))
  {
  }

  /** The sorted list holds exactly the rows that match the search, and with
      an empty search every row of the dataset. */
  lemma SortedRowsMembers(data: seq<Row>, s: Series, mode: Mode, key: SortKey, search: string)
    ensures Query(search) == "" ==> multiset(SortedRows(data, s, mode, key, search)) == multiset(data)
    ensures forall x :: x in SortedRows(data, s, mode, key, search) <==>
              x in data && Matches(x, Query(search))
  {
    var rs := SortedRows(data, s, mode, key, search);
    var q := Query(search);
    forall x
      ensures x in rs <==> x in data && Matches(x, q)
    {
      assert x in rs <==> x in multiset(rs);
      if q == "" {
        assert OccursAt(Lower(Name(x)), "", 0);
      }
    }
  }

  /** The two extents of the bar scale: the largest non-negative value and
      the largest magnitude of a negative value, both starting at zero. */
  datatype Extent = Extent(maxPos: real, maxNeg: real)

  function Max(a: real, b: real): real
  {
    if a >= b then a else b
  }

  /** One value of the scan that finds the extents. */
  function Widen(e: Extent, v: Option<real>): (w: Extent)
  {
    if v.None? then e
    else if v.value >= 0.0 then Extent(Max(e.maxPos, v.value), e.maxNeg)
    else Extent(e.maxPos, Max(e.maxNeg, -v.value))
  }

  /** `v` lies on the scale: a non-negative value is at most `maxPos`, a
      negative one at least `-maxNeg`. */
  predicate Covers(e: Extent, v: Option<real>)
  {
    v.None? || ((v.value >= 0.0 ==> v.value <= e.maxPos) && (v.value < 0.0 ==> -v.value <= e.maxNeg))
  }

  /** `v` is an end of the scale. */
  predicate Reaches(v: Option<real>, x: real)
  {
    v == Some(x)
  }

  /** Some listed row has `x` as its data or projection value. */
  predicate Attained(rows: seq<Row>, s: Series, x: real)
  {
    exists i :: 0 <= i < |rows| && (Reaches(DataVal(rows[i], s), x) || Reaches(ProjVal(rows[i], s), x))
  }

  /** Every data and projection value of the rows lies on the scale. */
  predicate CoversAll(e: Extent, rows: seq<Row>, s: Series)
  {
    forall i :: 0 <= i < |rows| ==> Covers(e, DataVal(rows[i], s)) && Covers(e, ProjVal(rows[i], s))
  }

  /** The extents scan of `renderBars` (app.js:1218-1234): over every listed
      row, its data value and its projection value, whichever mode is
      shown. */
  function Extents(rows: seq<Row>, s: Series): (e: Extent)
    ensures e.maxPos >= 0.0 && e.maxNeg >= 0.0
  {
    if |rows| == 0 then Extent(0.0, 0.0)
    else
      var last := rows[|rows| - 1];
      Widen(Widen(Extents(rows[..|rows| - 1], s), DataVal(last, s)), ProjVal(last, s))
  }

  /** Widening keeps what was covered covered, covers the new value, and
      moves an extent only to the new value. */
  lemma WidenFacts(e: Extent, v: Option<real>)
    ensures var w := Widen(e, v);
      && w.maxPos >= e.maxPos && w.maxNeg >= e.maxNeg
      && Covers(w, v)
      && (w.maxPos != e.maxPos ==> Reaches(v, w.maxPos))
      && (w.maxNeg != e.maxNeg ==> Reaches(v, -w.maxNeg))
  {
  }

  lemma CoversMonotone(e: Extent, w: Extent, v: Option<real>)
    requires w.maxPos >= e.maxPos && w.maxNeg >= e.maxNeg && Covers(e, v)
    ensures Covers(w, v)
  {
  }

  /** The extents are the largest values: every value lies on the scale and
      a non-zero extent is the value of some listed row. */
  lemma ExtentsAreMaxima(rows: seq<Row>, s: Series)
    ensures CoversAll(Extents(rows, s), rows, s)
    ensures Extents(rows, s).maxPos > 0.0 ==> Attained(rows, s, Extents(rows, s).maxPos)
    ensures Extents(rows, s).maxNeg > 0.0 ==> Attained(rows, s, -Extents(rows, s).maxNeg)
  {
    ExtentsCover(rows, s);
    ExtentsAttained(rows, s);
  }

  lemma {:induction false} ExtentsCover(rows: seq<Row>, s: Series)
    ensures CoversAll(Extents(rows, s), rows, s)
    decreases |rows|
  {
    if |rows| > 0 {
      var d := rows[..|rows| - 1];
      var n := |rows| - 1;
      ExtentsCover(d, s);
      var e0 := Extents(d, s);
      var e1 := Widen(e0, DataVal(rows[n], s));
      var e2 := Widen(e1, ProjVal(rows[n], s));
      WidenFacts(e0, DataVal(rows[n], s));
      WidenFacts(e1, ProjVal(rows[n], s));
      assert e2 == Extents(rows, s);
      forall i | 0 <= i < |rows|
        ensures Covers(e2, DataVal(rows[i], s)) && Covers(e2, ProjVal(rows[i], s))
      {
        if i < n {
          assert rows[i] == d[i];
          CoversMonotone(e0, e2, DataVal(rows[i], s));
          CoversMonotone(e0, e2, ProjVal(rows[i], s));
        } else {
          CoversMonotone(e1, e2, DataVal(rows[i], s));
        }
      }
    }
  }

  lemma {:induction false} ExtentsAttained(rows: seq<Row>, s: Series)
    ensures Extents(rows, s).maxPos > 0.0 ==> Attained(rows, s, Extents(rows, s).maxPos)
    ensures Extents(rows, s).maxNeg > 0.0 ==> Attained(rows, s, -Extents(rows, s).maxNeg)
    decreases |rows|
  {
    if |rows| > 0 {
      var d := rows[..|rows| - 1];
      var n := |rows| - 1;
      ExtentsAttained(d, s);
      var e0 := Extents(d, s);
      var e1 := Widen(e0, DataVal(rows[n], s));
      var e2 := Widen(e1, ProjVal(rows[n], s));
      WidenFacts(e0, DataVal(rows[n], s));
      WidenFacts(e1, ProjVal(rows[n], s));
      assert e2 == Extents(rows, s);
      if e0.maxPos > 0.0 {
        AttainedExtend(d, rows, s, e0.maxPos);
      }
      if e0.maxNeg > 0.0 {
        AttainedExtend(d, rows, s, -e0.maxNeg);
      }
      if e2.maxPos > 0.0 && e2.maxPos != e0.maxPos {
        assert Reaches(DataVal(rows[n], s), e2.maxPos) || Reaches(ProjVal(rows[n], s), e2.maxPos);
      }
      if e2.maxNeg > 0.0 && e2.maxNeg != e0.maxNeg {
        assert Reaches(DataVal(rows[n], s), -e2.maxNeg) || Reaches(ProjVal(rows[n], s), -e2.maxNeg);
      }
    }
  }

  lemma AttainedExtend(d: seq<Row>, rows: seq<Row>, s: Series, x: real)
    requires |rows| > 0 && d == rows[..|rows| - 1]
    requires Attained(d, s, x)
    ensures Attained(rows, s, x)
  {
    var i :| 0 <= i < |d| && (Reaches(DataVal(d[i], s), x) || Reaches(ProjVal(d[i], s), x));
    assert rows[i] == d[i];
  }

  /** The position of the zero line, in percent of the track:
      `maxNegAbs / ((maxPos + maxNegAbs) || 1) * 100`. */
  function ZeroPct(e: Extent): (z: real)
    ensures e.maxPos + e.maxNeg != 0.0 ==> z * (e.maxPos + e.maxNeg) == 100.0 * e.maxNeg
    ensures e.maxPos + e.maxNeg == 0.0 ==> z == 100.0 * e.maxNeg
  {
    var sum := e.maxPos + e.maxNeg;
    var denom := if sum == 0.0 then 1.0 else sum;
    var q := e.maxNeg / denom;
    assert IsQuotient(q, e.maxNeg, denom);
    assert q * 100.0 * denom == 100.0 * (q * denom);
    q * 100.0
  }

  /** The zero line divides the track in the ratio of the two extents: at
      the left end without negative values, at the right end without
      positive ones. */
  lemma ZeroPctPlacement(e: Extent)
    requires e.maxPos >= 0.0 && e.maxNeg >= 0.0
    ensures 0.0 <= ZeroPct(e) <= 100.0
    ensures e.maxNeg == 0.0 ==> ZeroPct(e) == 0.0
    ensures e.maxNeg > 0.0 && e.maxPos == 0.0 ==> ZeroPct(e) == 100.0
    ensures ZeroPct(e) * (e.maxPos + e.maxNeg) == 100.0 * e.maxNeg
  {
    var sum := e.maxPos + e.maxNeg;
    if sum > 0.0 {
      DivBounds(e.maxNeg, sum, 0.0, 1.0);
      var q := e.maxNeg / sum;
      assert IsQuotient(q, e.maxNeg, sum);
      assert ZeroPct(e) * sum == 100.0 * (q * sum);
    }
  }

  /** A filled segment of a track: its left edge and width, in percent. */
  datatype Seg = Seg(left: real, width: real)

  /** `buildAxisLine` (app.js:1242-1262): no fill for a missing or zero
      value; a negative value fills leftwards from the zero line, a positive
      one rightwards, scaled by its own extent. */
  function Segment(v: Option<real>, e: Extent): (g: Option<Seg>)
    ensures g.None? <==> v.None? || v.value == 0.0
  {
    var zeroPct := ZeroPct(e);
    if v.None? || v.value == 0.0 then None
    else if v.value < 0.0 then
      var a := -v.value;
      var w := if e.maxNeg != 0.0 then (a / e.maxNeg) * zeroPct else 0.0;
      Some(Seg(zeroPct - w, w))
    else
      var span := 100.0 - zeroPct;
      var w := if e.maxPos != 0.0 then (v.value / e.maxPos) * span else 0.0;
      Some(Seg(zeroPct, w))
  }

  /** `q * z` for a `q` between zero and one lies between zero and `z`. */
  lemma ScaleWithin(q: real, z: real)
    requires 0.0 <= q <= 1.0 && z >= 0.0
    ensures 0.0 <= q * z <= z
  {
    assert (1.0 - q) * z >= 0.0;
  }

  /** A fill leftwards from the zero line `z` for magnitude `a` on extent
      `m`: on the track, ending at `z`, proportional to `a`, and reaching
      the left end at the extent itself. */
  lemma LeftFill(a: real, m: real, z: real)
    requires 0.0 < a <= m && 0.0 <= z <= 100.0
    ensures var w := (a / m) * z;
      && 0.0 <= z - w && 0.0 <= w && (z - w) + w <= 100.0
      && w * m == a * z && (a == m ==> z - w == 0.0)
  {
    BarWidthBounds(a, m, z);
    BarWidthProportion(a, m, z);
    if a == m {
      assert a / m == 1.0;
    }
  }

  /** A fill rightwards from the zero line `z`: on the track, proportional
      to `a`, and reaching the right end at the extent itself. */
  lemma RightFill(a: real, m: real, z: real)
    requires 0.0 < a <= m && 0.0 <= z <= 100.0
    ensures var w := (a / m) * (100.0 - z);
      && 0.0 <= w && z + w <= 100.0
      && w * m == a * (100.0 - z) && (a == m ==> z + w == 100.0)
  {
    BarWidthBounds(a, m, 100.0 - z);
    BarWidthProportion(a, m, 100.0 - z);
    if a == m {
      assert a / m == 1.0;
    }
  }

  lemma BarWidthBounds(a: real, m: real, z: real)
    requires 0.0 < a <= m && z >= 0.0
    ensures 0.0 <= (a / m) * z <= z
  {
    DivBounds(a, m, 0.0, 1.0);
    ScaleWithin(a / m, z);
  }

  lemma BarWidthProportion(a: real, m: real, z: real)
    requires 0.0 < a <= m
    ensures (a / m) * z * m == a * z
  {
    var q := a / m;
    assert q * m == a;
    assert q * z * m == (q * m) * z;
  }

  /** Segments on a scale that covers their value stay on the track, meet
      the zero line, and have widths proportional to their values; the
      values at the extents reach the ends of the track. */
  lemma SegmentGeometry(v: Option<real>, e: Extent)
    requires e.maxPos >= 0.0 && e.maxNeg >= 0.0 && Covers(e, v)
    requires v.Some? && v.value != 0.0
    ensures Segment(v, e).Some?
    ensures 0.0 <= Segment(v, e).value.left && 0.0 <= Segment(v, e).value.width
    ensures Segment(v, e).value.left + Segment(v, e).value.width <= 100.0
    ensures v.value < 0.0 ==> Segment(v, e).value.left + Segment(v, e).value.width == ZeroPct(e)
    ensures v.value > 0.0 ==> Segment(v, e).value.left == ZeroPct(e)
    ensures v.value < 0.0 ==> Segment(v, e).value.width * e.maxNeg == -v.value * ZeroPct(e)
    ensures v.value > 0.0 ==> Segment(v, e).value.width * e.maxPos == v.value * (100.0 - ZeroPct(e))
    ensures v.value == -e.maxNeg ==> Segment(v, e).value.left == 0.0
    ensures v.value == e.maxPos ==> Segment(v, e).value.left + Segment(v, e).value.width == 100.0
  {
    if v.value < 0.0 {
      NegativeGeometry(v.value, e);
    } else {
      PositiveGeometry(v.value, e);
    }
  }

  lemma NegativeGeometry(x: real, e: Extent)
    requires x < 0.0 && -x <= e.maxNeg && e.maxPos >= 0.0
    ensures var g := Segment(Some(x), e).value;
      && 0.0 <= g.left && 0.0 <= g.width && g.left + g.width == ZeroPct(e) <= 100.0
      && g.width * e.maxNeg == -x * ZeroPct(e) && (x == -e.maxNeg ==> g.left == 0.0)
  {
    ZeroPctPlacement(e);
    NegativeSegment(x, e);
    LeftFill(-x, e.maxNeg, ZeroPct(e));
  }

  lemma PositiveGeometry(x: real, e: Extent)
    requires x > 0.0 && x <= e.maxPos && e.maxNeg >= 0.0
    ensures var g := Segment(Some(x), e).value;
      && 0.0 <= g.width && g.left == ZeroPct(e) && 0.0 <= g.left && g.left + g.width <= 100.0
      && g.width * e.maxPos == x * (100.0 - ZeroPct(e)) && (x == e.maxPos ==> g.left + g.width == 100.0)
  {
    ZeroPctPlacement(e);
    PositiveSegment(x, e);
    RightFill(x, e.maxPos, ZeroPct(e));
  }

  lemma NegativeSegment(x: real, e: Extent)
    requires x < 0.0 && e.maxNeg > 0.0
    ensures var w := (-x / e.maxNeg) * ZeroPct(e);
      Segment(Some(x), e) == Some(Seg(ZeroPct(e) - w, w))
  {
    var w := (-x / e.maxNeg) * ZeroPct(e);
    assert Segment(Some(x), e).value == Seg(ZeroPct(e) - w, w);
  }

  lemma PositiveSegment(x: real, e: Extent)
    requires x > 0.0 && e.maxPos > 0.0
    ensures Segment(Some(x), e) == Some(Seg(ZeroPct(e), (x / e.maxPos) * (100.0 - ZeroPct(e))))
  {
    assert Segment(Some(x), e).value == Seg(ZeroPct(e), (x / e.maxPos) * (100.0 - ZeroPct(e)));
  }

  /** The tracks of one row: both series in the combined view of an
      indicator with a projection, otherwise the series of the mode. */
  function Tracks(r: Row, s: Series, mode: Mode): (vs: seq<Option<real>>)
    ensures |vs| >= 1
  {
    var dual := mode != ProjectionOnly && mode != DataOnly && s.proj.Some?;
    if dual then [DataVal(r, s), ProjVal(r, s)]
    else if mode == ProjectionOnly then [ProjVal(r, s)]
    else [DataVal(r, s)]
  }

  /** The segments of the tracks of one row. */
  function RowBars(r: Row, s: Series, mode: Mode, e: Extent): (g: seq<Option<Seg>>)
    ensures |g| == |Tracks(r, s, mode)|
    ensures forall k :: 0 <= k < |g| ==> g[k] == Segment(Tracks(r, s, mode)[k], e)
  {
    var ts := Tracks(r, s, mode);
    seq(|ts|, k requires 0 <= k < |ts| => Segment(ts[k], e))
  }

  /** The segments of the tracks of a list of rows on one scale. */
  function Bars(rows: seq<Row>, s: Series, mode: Mode, e: Extent): (bars: seq<seq<Option<Seg>>>)
    ensures |bars| == |rows|
    ensures forall i :: 0 <= i < |rows| ==> |bars[i]| == |Tracks(rows[i], s, mode)|
    ensures forall i, k :: 0 <= i < |rows| && 0 <= k < |bars[i]| ==> bars[i][k] == Segment(Tracks(rows[i], s, mode)[k], e)
  {
    seq(|rows|, i requires 0 <= i < |rows| => RowBars(rows[i], s, mode, e))
  }

  /** `renderBars` (app.js:1199-1311): the sorted rows and, for each, the
      segments of its tracks on the scale of all listed values. */
  function RenderBars(data: seq<Row>, s: Series, mode: Mode, key: SortKey, search: string): (out: (seq<Row>, seq<seq<Option<Seg>>>))
    ensures out.0 == SortedRows(data, s, mode, key, search)
    ensures out.1 == Bars(out.0, s, mode, Extents(out.0, s))
    ensures |out.1| == |out.0|
  {
    var rows := SortedRows(data, s, mode, key, search);
    (rows, Bars(rows, s, mode, Extents(rows, s)))
  }

  /** A segment on the track `[0, 100]` that starts or ends at the zero line. */
  predicate OnTrack(g: Seg, e: Extent)
  {
    && 0.0 <= g.left && 0.0 <= g.width && g.left + g.width <= 100.0
    && (g.left == ZeroPct(e) || g.left + g.width == ZeroPct(e))
  }

  /** The segment of a covered value, when there is one, is on the track. */
  lemma SegmentOnTrack(v: Option<real>, e: Extent)
    requires e.maxPos >= 0.0 && e.maxNeg >= 0.0 && Covers(e, v)
    ensures Segment(v, e).Some? ==> OnTrack(Segment(v, e).value, e)
  {
    if Segment(v, e).Some? {
      SegmentGeometry(v, e);
    }
  }

  /** Every drawn segment of a listed row lies on the track, negative ones
      end at the common zero line and positive ones start there, on the scale
      of all listed values. */
  lemma ListOnTrack(rows: seq<Row>, s: Series, mode: Mode)
    ensures var e := Extents(rows, s); var bars := Bars(rows, s, mode, e);
      forall i, k :: 0 <= i < |bars| && 0 <= k < |bars[i]| && bars[i][k].Some? ==> OnTrack(bars[i][k].value, e)
  {
    ExtentsAreMaxima(rows, s);
    BarsOnTrack(rows, s, mode, Extents(rows, s));
  }

  /** On a scale that covers every value of the rows, each segment is on its
      track. */
  lemma BarsOnTrack(rows: seq<Row>, s: Series, mode: Mode, e: Extent)
    requires e.maxPos >= 0.0 && e.maxNeg >= 0.0 && CoversAll(e, rows, s)
    ensures var bars := Bars(rows, s, mode, e);
      forall i, k :: 0 <= i < |bars| && 0 <= k < |bars[i]| && bars[i][k].Some? ==> OnTrack(bars[i][k].value, e)
  {
    var bars: seq<seq<Option<Seg>>> := Bars(rows, s, mode, e);
    forall i: int, k: int | 0 <= i < |bars| && 0 <= k < |bars[i]| && bars[i][k].Some?
      ensures OnTrack(bars[i][k].value, e)
    {
      var v := Tracks(rows[i], s, mode)[k];
      assert bars[i][k] == Segment(v, e);
      SegmentOnTrack(v, e);
    }
  }
}
