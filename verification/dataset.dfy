/** The dataset the dashboard reads: an ordered sequence of economy rows, each
    a sparse map from indicator id to a value. The source's global `DATA` is a
    parameter of every operation here. */
module Dataset {
  import opened Common

  type ColumnId = string

  /** A row: the optional `Economy` name and the other cells. A cell that is
      absent, non-numeric, NaN or infinite is `None`, or missing from the map. */
  datatype Row = Row(economy: Option<string>, cells: map<ColumnId, Option<real>>)

  /** A named value, the `{ name, v }` records the summary builds. */
  datatype Entry = Entry(name: string, v: real)

  /** The cell of `r` at `id`, if it is a finite number. */
  function Cell(r: Row, id: ColumnId): Option<real>
  {
    if id in r.cells then r.cells[id] else None
  }

  /** `isNum(r[id])` (app.js:30): the cell holds a finite number. */
  predicate IsNum(r: Row, id: ColumnId)
  {
    Cell(r, id).Some?
  }

  /** `hasNumeric` (`DATA.some(r => isNum(r[id]))`): a scan that stops at
      the first row with a number in column `id`; true exactly when there
      is one. */
  function HasNumeric(data: seq<Row>, id: ColumnId): (b: bool)
    ensures b <==> exists i :: 0 <= i < |data| && IsNum(data[i], id)
  {
    if |data| == 0 then false
    else if IsNum(data[0], id) then true
    else
      assert forall i :: 1 <= i < |data| ==> data[1..][i - 1] == data[i];
      HasNumeric(data[1..], id)
  }

  /** `r.Economy` is truthy: present and not the empty string. */
  predicate HasName(r: Row)
  {
    r.economy.Some? && r.economy.value != ""
  }

  /** A row that entity-keyed aggregations consider for column `id`. */
  predicate Eligible(r: Row, id: ColumnId)
  {
    HasName(r) && IsNum(r, id)
  }

  /** The numeric values of column `id`, in dataset order (the `vals` array
      that the summary loops fill). */
  function Values(data: seq<Row>, id: ColumnId): (vs: seq<real>)
    ensures |vs| <= |data|
    ensures |vs| == 0 <==> forall i :: 0 <= i < |data| ==> !IsNum(data[i], id)
  {
    if |data| == 0 then []
    else
      var d := data[..|data| - 1];
      var r := data[|data| - 1];
      var prev := Values(d, id);
      assert forall i :: 0 <= i < |d| ==> d[i] == data[i];
      if IsNum(r, id) then prev + [Cell(r, id).value] else prev
  }

  /** `sortedNumeric(id)` (app.js:247-251): the rows that have a name and a
      numeric value for `id`, as entries, in dataset order. */
  function Numeric(data: seq<Row>, id: ColumnId): (es: seq<Entry>)
    ensures |es| <= |data|
    ensures |es| == 0 <==> forall i :: 0 <= i < |data| ==> !Eligible(data[i], id)
  {
    if |data| == 0 then []
    else
      var d := data[..|data| - 1];
      var r := data[|data| - 1];
      var prev := Numeric(d, id);
      assert forall i :: 0 <= i < |d| ==> d[i] == data[i];
      if Eligible(r, id) then prev + [Entry(r.economy.value, Cell(r, id).value)] else prev
  }

  /** One row gives one entry, with its name and value, exactly when it is
      eligible. */
  lemma NumericRow(r: Row, id: ColumnId)
    ensures Numeric([r], id) == if Eligible(r, id) then [Entry(r.economy.value, Cell(r, id).value)] else []
  {
    assert [r][..0] == [];
  }

  /** One more row at the end adds its entry, if any, at the end. */
  lemma NumericSnoc(front: seq<Row>, r: Row, id: ColumnId)
    ensures Numeric(front + [r], id)
         == Numeric(front, id) + (if Eligible(r, id) then [Entry(r.economy.value, Cell(r, id).value)] else [])
  {
    assert (front + [r])[..|front|] == front;
  }

  /** `sortedNumeric` distributes over concatenation: entries keep dataset
      order, one per eligible row. */
  lemma {:induction false} NumericAppend(d1: seq<Row>, d2: seq<Row>, id: ColumnId)
    ensures Numeric(d1 + d2, id) == Numeric(d1, id) + Numeric(d2, id)
    decreases |d2|
  {
    if |d2| == 0 {
      assert d1 + d2 == d1;
    } else {
      var d := d2[..|d2| - 1];
      var r := d2[|d2| - 1];
      assert d2 == d + [r];
      assert d1 + d2 == (d1 + d) + [r];
      NumericAppend(d1, d, id);
      NumericSnoc(d1 + d, r, id);
      NumericSnoc(d, r, id);
      var t := if Eligible(r, id) then [Entry(r.economy.value, Cell(r, id).value)] else [];
      ConcatGlue(Numeric(d1 + d2, id), Numeric(d1 + d, id), Numeric(d1, id), Numeric(d, id), Numeric(d2, id), t);
    }
  }

  /** Each entry of `Numeric` comes from an eligible row, carrying its name
      and value, and each eligible row gives an entry. */
  lemma {:induction false} NumericMembers(data: seq<Row>, id: ColumnId)
    ensures forall k :: 0 <= k < |Numeric(data, id)| ==> Numeric(data, id)[k].name != ""
    ensures forall k :: 0 <= k < |Numeric(data, id)| ==>
              exists i :: 0 <= i < |data| && Eligible(data[i], id) &&
                Numeric(data, id)[k] == Entry(data[i].economy.value, Cell(data[i], id).value)
    ensures forall i :: 0 <= i < |data| && Eligible(data[i], id) ==>
              Entry(data[i].economy.value, Cell(data[i], id).value) in Numeric(data, id)
  {
    NumericFrom(data, id);
    NumericHas(data, id);
    var es := Numeric(data, id);
    forall k | 0 <= k < |es|
      ensures es[k].name != ""
    {
      var i :| 0 <= i < |data| && Eligible(data[i], id) && es[k] == Entry(data[i].economy.value, Cell(data[i], id).value);
    }
  }

  lemma {:induction false} NumericFrom(data: seq<Row>, id: ColumnId)
    ensures forall k :: 0 <= k < |Numeric(data, id)| ==>
              exists i :: 0 <= i < |data| && Eligible(data[i], id) &&
                Numeric(data, id)[k] == Entry(data[i].economy.value, Cell(data[i], id).value)
    decreases |data|
  {
    if |data| > 0 {
      var d := data[..|data| - 1];
      var last := |data| - 1;
      NumericFrom(d, id);
      var es := Numeric(data, id);
      var pe := Numeric(d, id);
      forall k | 0 <= k < |es|
        ensures exists i :: 0 <= i < |data| && Eligible(data[i], id) &&
                  es[k] == Entry(data[i].economy.value, Cell(data[i], id).value)
      {
        if k < |pe| {
          var i :| 0 <= i < |d| && Eligible(d[i], id) &&
                   pe[k] == Entry(d[i].economy.value, Cell(d[i], id).value);
          assert data[i] == d[i] && es[k] == pe[k];
        } else {
          assert es[k] == Entry(data[last].economy.value, Cell(data[last], id).value);
        }
      }
    } else {
      assert Numeric(data, id) == [];
    }
  }

  lemma {:induction false} NumericHas(data: seq<Row>, id: ColumnId)
    ensures forall i :: 0 <= i < |data| && Eligible(data[i], id) ==>
              Entry(data[i].economy.value, Cell(data[i], id).value) in Numeric(data, id)
    decreases |data|
  {
    if |data| > 0 {
      var d := data[..|data| - 1];
      NumericHas(d, id);
      assert forall i :: 0 <= i < |d| ==> d[i] == data[i];
      assert forall x :: x in Numeric(d, id) ==> x in Numeric(data, id);
    }
  }

  /** Every numeric cell's value is among the column's values, and nothing else is. */
  lemma {:induction false} ValuesMembers(data: seq<Row>, id: ColumnId)
    ensures forall k :: 0 <= k < |Values(data, id)| ==>
              exists i :: 0 <= i < |data| && Cell(data[i], id) == Some(Values(data, id)[k])
    ensures forall i :: 0 <= i < |data| && IsNum(data[i], id) ==> Cell(data[i], id).value in Values(data, id)
  {
    ValuesFrom(data, id);
    ValuesHas(data, id);
    var vs := Values(data, id);
    forall k | 0 <= k < |vs|
      ensures exists i :: 0 <= i < |data| && Cell(data[i], id) == Some(vs[k])
    {
      var i :| 0 <= i < |data| && Cell(data[i], id) == Some(vs[k]);
    }
  }

  lemma {:induction false} ValuesFrom(data: seq<Row>, id: ColumnId)
    ensures forall k :: 0 <= k < |Values(data, id)| ==>
              exists i :: 0 <= i < |data| && Cell(data[i], id) == Some(Values(data, id)[k])
    decreases |data|
  {
    if |data| > 0 {
      var d := data[..|data| - 1];
      var last := |data| - 1;
      ValuesFrom(d, id);
      var vs := Values(data, id);
      var pv := Values(d, id);
      forall k | 0 <= k < |vs|
        ensures exists i :: 0 <= i < |data| && Cell(data[i], id) == Some(vs[k])
      {
        if k < |pv| {
          var i :| 0 <= i < |d| && Cell(d[i], id) == Some(pv[k]);
          assert data[i] == d[i] && vs[k] == pv[k];
        } else {
          assert Cell(data[last], id) == Some(vs[k]);
        }
      }
    } else {
      assert Values(data, id) == [];
    }
  }

  lemma {:induction false} ValuesHas(data: seq<Row>, id: ColumnId)
    ensures forall i :: 0 <= i < |data| && IsNum(data[i], id) ==> Cell(data[i], id).value in Values(data, id)
    decreases |data|
  {
    if |data| > 0 {
      var d := data[..|data| - 1];
      ValuesHas(d, id);
      assert forall i :: 0 <= i < |d| ==> d[i] == data[i];
      assert forall x :: x in Values(d, id) ==> x in Values(data, id);
    }
  }

  /** The values of a list of entries. */
  function EntryValues(es: seq<Entry>): (vs: seq<real>)
    ensures |vs| == |es|
    ensures forall k :: 0 <= k < |es| ==> vs[k] == es[k].v
  {
    if |es| == 0 then [] else EntryValues(es[..|es| - 1]) + [es[|es| - 1].v]
  }

  /** The names of a list of entries. */
  function EntryNames(es: seq<Entry>): (ns: seq<string>)
    ensures |ns| == |es|
    ensures forall k :: 0 <= k < |es| ==> ns[k] == es[k].name
  {
    if |es| == 0 then [] else EntryNames(es[..|es| - 1]) + [es[|es| - 1].name]
  }

  lemma EntryValuesAppend(a: seq<Entry>, b: seq<Entry>)
    ensures EntryValues(a + b) == EntryValues(a) + EntryValues(b)
  {
  }

  /** The values of the first `k` entries are the first `k` values. */
  lemma EntryValuesPrefix(es: seq<Entry>, k: nat)
    requires k <= |es|
    ensures EntryValues(es[..k]) == EntryValues(es)[..k]
  {
  }
}
