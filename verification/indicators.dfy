/** The indicator catalogue and its automatic extension with numeric columns
    of the data that no indicator describes yet. */
module Indicators {
  import opened Common
  import opened Dataset

  /** An indicator definition: its column, caption, unit and number format. */
  datatype IndicatorDef = IndicatorDef(id: ColumnId, caption: string, unit: string, fmt: string)

  /** The column that names the economy, never an indicator. */
  const EconomyColumn: ColumnId := "Economy"

  /** The format given to discovered indicators. */
  const DefaultFmt: string := "0.0"

  /** The ids of a catalogue. */
  function Ids(defs: seq<IndicatorDef>): (ids: set<ColumnId>)
    ensures forall d :: d in defs ==> d.id in ids
    ensures forall c :: c in ids ==> exists d :: d in defs && d.id == c
  {
    set d | d in defs :: d.id
  }

  /** The definition a discovered column gets: the id as its caption, no
      unit and one decimal. */
  function Discovered(c: ColumnId): IndicatorDef
  {
    IndicatorDef(c, c, "", DefaultFmt)
  }

  /** Whether column `c` is added: it is not the economy column, not known,
      and some row has a number in it. */
  predicate Wanted(c: ColumnId, known: set<ColumnId>, data: seq<Row>)
  {
    c != EconomyColumn && c !in known && HasNumeric(data, c)
  }

  /** The `extra` list: one discovered definition per wanted column, in
      column order. */
  function Extra(cols: seq<ColumnId>, known: set<ColumnId>, data: seq<Row>): (ex: seq<IndicatorDef>)
    ensures forall d :: d in ex ==> d.id in cols && Wanted(d.id, known, data) && d == Discovered(d.id)
    ensures forall c :: c in cols && Wanted(c, known, data) ==> Discovered(c) in ex
  {
    if |cols| == 0 then []
    else
      var prev := Extra(cols[..|cols| - 1], known, data);
      var c := cols[|cols| - 1];
      assert forall x :: x in cols ==> x in cols[..|cols| - 1] || x == c;
      if Wanted(c, known, data) then prev + [Discovered(c)] else prev
  }

  /** One column gives its discovered definition when it is wanted and
      nothing otherwise. */
  lemma ExtraOne(c: ColumnId, known: set<ColumnId>, data: seq<Row>)
    ensures Extra([c], known, data) == if Wanted(c, known, data) then [Discovered(c)] else []
  {
    assert [c][..0] == [];
  }

  /** The extra list of two runs of columns is the one of the first run
      followed by the one of the second: definitions follow column order. */
  lemma {:induction false} ExtraAppend(c1: seq<ColumnId>, c2: seq<ColumnId>, known: set<ColumnId>, data: seq<Row>)
    ensures Extra(c1 + c2, known, data) == Extra(c1, known, data) + Extra(c2, known, data)
    decreases |c2|
  {
    if |c2| == 0 {
      assert c1 + c2 == c1;
    } else {
      var w := c1 + c2;
      assert w[..|w| - 1] == c1 + c2[..|c2| - 1];
      assert w[|w| - 1] == c2[|c2| - 1];
      ExtraAppend(c1, c2[..|c2| - 1], known, data);
    }
  }

  /** No wanted column, no extra definitions. */
  lemma {:induction false} ExtraNone(cols: seq<ColumnId>, known: set<ColumnId>, data: seq<Row>)
    requires forall c :: c in cols ==> !Wanted(c, known, data)
    ensures Extra(cols, known, data) == []
    decreases |cols|
  {
    if |cols| > 0 {
      ExtraNone(cols[..|cols| - 1], known, data);
    }
  }

  /** `autoExtendIndicatorsFromData` (app.js:93-109). `cols` stands for the
      keys of the first row, in their enumeration order. */
  function AutoExtend(defs: seq<IndicatorDef>, data: seq<Row>, cols: seq<ColumnId>): (r: seq<IndicatorDef>)
    ensures |data| == 0 ==> r == defs
    ensures |data| > 0 ==> r == defs + Extra(cols, Ids(defs), data)
    ensures |r| >= |defs| && r[..|defs|] == defs
    ensures forall k :: |defs| <= k < |r| ==>
              r[k] == Discovered(r[k].id) && r[k].id in cols && Wanted(r[k].id, Ids(defs), data)
    ensures |data| > 0 ==>
              forall c :: c in cols && c != EconomyColumn && HasNumeric(data, c) ==> c in Ids(r)
  {
    if |data| == 0 then defs
    else
      var ex := Extra(cols, Ids(defs), data);
      var r := defs + ex;
      assert forall k :: |defs| <= k < |r| ==> r[k] in ex;
      forall c | c in cols && c != EconomyColumn && HasNumeric(data, c)
        ensures c in Ids(r)
      {
        if c !in Ids(defs) {
          assert Discovered(c) in r;
        } else {
          var d :| d in defs && d.id == c;
          assert d in r;
        }
      }
      r
  }

  /** Running the extension a second time adds nothing: every column the
      first run could add is known afterwards. */
  lemma AutoExtendIdempotent(defs: seq<IndicatorDef>, data: seq<Row>, cols: seq<ColumnId>)
    ensures AutoExtend(AutoExtend(defs, data, cols), data, cols) == AutoExtend(defs, data, cols)
  {
    var r := AutoExtend(defs, data, cols);
    if |data| > 0 {
      ExtraNone(cols, Ids(r), data);
      assert r + [] == r;
    }
  }
}
