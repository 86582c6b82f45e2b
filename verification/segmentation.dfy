/** The productivity-growth segmentation of the summary page: economies with
    a name and numeric values on both axes are split at the two medians into
    four buckets, High/Low productivity level by High/Low growth, a value on
    the median counting as High. */
module Segmentation {
  import opened Common
  import opened Dataset
  import opened Aggregate
  import Ordering

  /** One economy's position: level `x` and growth `y`. */
  datatype Point = Point(name: string, x: real, y: real)

  /** The segmentation's X axis, labour productivity per worker in 2023. */
  const SegX: ColumnId := "LP_level_per_worker_2023_kUSD"

  /** The growth indicators offered for the Y axis, in menu order. */
  const SegCandidates: seq<ColumnId> := [
    "GDP_growth_proj_2530_pct",
    "LP_growth_proj_2530_pct",
    "TFP_growth_proj_2530_pct",
    "GDP_growth_2223_pct",
    "LP_growth_2223_pct",
    "TFP_growth_2223_pct",
    "Capital_prod_growth_proj_2530_pct",
    "Capital_prod_growth_2223_pct"
  ]

  /** The candidates that have data, in order. */
  function WithData(data: seq<Row>, ids: seq<ColumnId>): (r: seq<ColumnId>)
    ensures forall k :: 0 <= k < |r| ==> r[k] in ids && HasNumeric(data, r[k])
    ensures forall k :: 0 <= k < |ids| && HasNumeric(data, ids[k]) ==> ids[k] in r
    ensures |r| > 0 ==> FirstWithData(data, ids, r[0])
  {
    if |ids| == 0 then []
    else
      var rest := WithData(data, ids[1..]);
      assert forall k :: 1 <= k < |ids| ==> ids[k] == ids[1..][k - 1];
      if HasNumeric(data, ids[0]) then
        assert FirstWithData(data, ids, ids[0]) by {
          assert ids[0] == ids[0];
        }
        [ids[0]] + rest
      else
        assert |rest| > 0 ==> FirstWithData(data, ids, rest[0]) by {
          if |rest| > 0 {
            FirstWithDataLater(data, ids, rest[0]);
          }
        }
        rest
  }

  /** `id` is the candidate of `ids` with data that comes first in `ids`. */
  ghost predicate FirstWithData(data: seq<Row>, ids: seq<ColumnId>, id: ColumnId)
  {
    exists k :: 0 <= k < |ids| && ids[k] == id && HasNumeric(data, id) &&
      forall j :: 0 <= j < k ==> !HasNumeric(data, ids[j])
  }

  lemma FirstWithDataLater(data: seq<Row>, ids: seq<ColumnId>, id: ColumnId)
    requires |ids| > 0 && !HasNumeric(data, ids[0])
    requires FirstWithData(data, ids[1..], id)
    ensures FirstWithData(data, ids, id)
  {
    var k :| 0 <= k < |ids[1..]| && ids[1..][k] == id && HasNumeric(data, id) &&
      forall j :: 0 <= j < k ==> !HasNumeric(data, ids[1..][j]);
    assert ids[k + 1] == id;
    forall j | 0 <= j < k + 1
      ensures !HasNumeric(data, ids[j])
    {
      if j > 0 {
        assert ids[j] == ids[1..][j - 1];
      }
    }
  }

  /** Filtering the menu distributes over concatenation, so the candidates
      with data keep menu order. */
  lemma {:induction false} WithDataAppend(data: seq<Row>, a: seq<ColumnId>, b: seq<ColumnId>)
    ensures WithData(data, a + b) == WithData(data, a) + WithData(data, b)
    decreases |a|
  {
    if |a| > 0 {
      assert (a + b)[1..] == a[1..] + b;
      assert (a + b)[0] == a[0];
      WithDataAppend(data, a[1..], b);
    } else {
      assert a + b == b;
    }
  }

  /** The Y indicator the segmentation uses (app.js:397-410): the current one
      when it is a candidate with data, else the first candidate with data,
      else the current one unchanged. */
  function SegIndicator(data: seq<Row>, current: ColumnId): (y: ColumnId)
    ensures current in WithData(data, SegCandidates) ==> y == current
    ensures current !in WithData(data, SegCandidates) && |WithData(data, SegCandidates)| > 0 ==>
              y == WithData(data, SegCandidates)[0]
    ensures current !in WithData(data, SegCandidates) && |WithData(data, SegCandidates)| > 0 ==>
              FirstWithData(data, SegCandidates, y)
    ensures y == current || (y in SegCandidates && HasNumeric(data, y))
    ensures (exists k :: 0 <= k < |SegCandidates| && HasNumeric(data, SegCandidates[k])) ==>
              y in SegCandidates && HasNumeric(data, y)
  {
    var ok := WithData(data, SegCandidates);
    if current in ok then current
    else if |ok| > 0 then ok[0]
    else current
  }

  /** The rows that have a name and numbers on both axes, as points, in
      dataset order (`segRows`, app.js:413-416). */
  function SegPoints(data: seq<Row>, xId: ColumnId, yId: ColumnId): (ps: seq<Point>)
    ensures |ps| <= |data|
    ensures |ps| == 0 <==> forall i :: 0 <= i < |data| ==> !Qualifies(data[i], xId, yId)
  {
    if |data| == 0 then []
    else
      var d := data[..|data| - 1];
      var r := data[|data| - 1];
      assert forall i :: 0 <= i < |d| ==> d[i] == data[i];
      var prev := SegPoints(d, xId, yId);
      if Qualifies(r, xId, yId) then prev + [PointOf(r, xId, yId)] else prev
  }

  predicate Qualifies(r: Row, xId: ColumnId, yId: ColumnId)
  {
    HasName(r) && IsNum(r, xId) && IsNum(r, yId)
  }

  function PointOf(r: Row, xId: ColumnId, yId: ColumnId): Point
    requires Qualifies(r, xId, yId)
  {
    Point(r.economy.value, Cell(r, xId).value, Cell(r, yId).value)
  }

  /** Each point comes from a qualifying row, and each qualifying row gives
      a point. */
  lemma {:induction false} SegPointsMembers(data: seq<Row>, xId: ColumnId, yId: ColumnId)
    ensures forall k :: 0 <= k < |SegPoints(data, xId, yId)| ==>
              exists i :: 0 <= i < |data| && Qualifies(data[i], xId, yId) &&
                SegPoints(data, xId, yId)[k] == PointOf(data[i], xId, yId)
    ensures forall i :: 0 <= i < |data| && Qualifies(data[i], xId, yId) ==>
              PointOf(data[i], xId, yId) in SegPoints(data, xId, yId)
    decreases |data|
  {
    if |data| > 0 {
      var d := data[..|data| - 1];
      var last := |data| - 1;
      SegPointsMembers(d, xId, yId);
      assert forall i :: 0 <= i < |d| ==> d[i] == data[i];
      var ps := SegPoints(data, xId, yId);
      var pp := SegPoints(d, xId, yId);
      assert forall k :: 0 <= k < |pp| ==> ps[k] == pp[k];
      forall k | 0 <= k < |ps|
        ensures exists i :: 0 <= i < |data| && Qualifies(data[i], xId, yId) &&
                  ps[k] == PointOf(data[i], xId, yId)
      {
        if k < |pp| {
          var i :| 0 <= i < |d| && Qualifies(d[i], xId, yId) && pp[k] == PointOf(d[i], xId, yId);
          assert data[i] == d[i];
        } else {
          assert ps[k] == PointOf(data[last], xId, yId);
        }
      }
    } else {
      assert SegPoints(data, xId, yId) == [];
    }
  }

  function Xs(ps: seq<Point>): (xs: seq<real>)
    ensures |xs| == |ps|
    ensures forall k :: 0 <= k < |ps| ==> xs[k] == ps[k].x
  {
    if |ps| == 0 then [] else Xs(ps[..|ps| - 1]) + [ps[|ps| - 1].x]
  }

  function Ys(ps: seq<Point>): (ys: seq<real>)
    ensures |ys| == |ps|
    ensures forall k :: 0 <= k < |ps| ==> ys[k] == ps[k].y
  {
    if |ps| == 0 then [] else Ys(ps[..|ps| - 1]) + [ps[|ps| - 1].y]
  }

  function Names(ps: seq<Point>): (ns: seq<string>)
    ensures |ns| == |ps|
    ensures forall k :: 0 <= k < |ps| ==> ns[k] == ps[k].name
  {
    if |ps| == 0 then [] else Names(ps[..|ps| - 1]) + [ps[|ps| - 1].name]
  }

  datatype Quadrant = HH | LH | HL | LL

  /** The quadrant of a point given the two medians; a value equal to its
      median counts as High (app.js:428-434). */
  function Classify(p: Point, xMed: real, yMed: real): (q: Quadrant)
    ensures (q == HH || q == HL) <==> p.x >= xMed
    ensures (q == HH || q == LH) <==> p.y >= yMed
  {
    var highX := p.x >= xMed;
    var highY := p.y >= yMed;
    if highX && highY then HH
    else if !highX && highY then LH
    else if highX && !highY then HL
    else LL
  }

  /** The four lists of names: High level/High growth, Low/High, High/Low,
      Low/Low. */
  datatype Buckets = Buckets(hh: seq<string>, lh: seq<string>, hl: seq<string>, ll: seq<string>)

  function Bucket(b: Buckets, q: Quadrant): seq<string>
  {
    match q
    case HH => b.hh
    case LH => b.lh
    case HL => b.hl
    case LL => b.ll
  }

  function Push(b: Buckets, q: Quadrant, name: string): (r: Buckets)
    ensures Bucket(r, q) == Bucket(b, q) + [name]
    ensures forall q' :: q' != q ==> Bucket(r, q') == Bucket(b, q')
  {
    match q
    case HH => b.(hh := b.hh + [name])
    case LH => b.(lh := b.lh + [name])
    case HL => b.(hl := b.hl + [name])
    case LL => b.(ll := b.ll + [name])
  }

  /** The `forEach` that pushes each point's name into its quadrant's list. */
  function Collect(ps: seq<Point>, xMed: real, yMed: real): (b: Buckets)
    ensures |b.hh| + |b.lh| + |b.hl| + |b.ll| == |ps|
  {
    if |ps| == 0 then Buckets([], [], [], [])
    else
      var p := ps[|ps| - 1];
      Push(Collect(ps[..|ps| - 1], xMed, yMed), Classify(p, xMed, yMed), p.name)
  }

  /** The buckets split the points' names: together they hold each name
      exactly as often as the points do. */
  lemma {:induction false} CollectPartition(ps: seq<Point>, xMed: real, yMed: real)
    ensures var b := Collect(ps, xMed, yMed);
            multiset(b.hh) + multiset(b.lh) + multiset(b.hl) + multiset(b.ll) == multiset(Names(ps))
    decreases |ps|
  {
    if |ps| > 0 {
      var p := ps[|ps| - 1];
      CollectPartition(ps[..|ps| - 1], xMed, yMed);
      assert Names(ps) == Names(ps[..|ps| - 1]) + [p.name];
    }
  }

  /** Every point's name is in its own quadrant's list, and every name in a
      list belongs to a point of that quadrant. */
  lemma {:induction false} CollectPlacement(ps: seq<Point>, xMed: real, yMed: real)
    ensures forall i :: 0 <= i < |ps| ==>
              ps[i].name in Bucket(Collect(ps, xMed, yMed), Classify(ps[i], xMed, yMed))
    ensures forall q, name :: name in Bucket(Collect(ps, xMed, yMed), q) ==>
              exists i :: 0 <= i < |ps| && ps[i].name == name && Classify(ps[i], xMed, yMed) == q
    decreases |ps|
  {
    if |ps| > 0 {
      var init := ps[..|ps| - 1];
      var p := ps[|ps| - 1];
      CollectPlacement(init, xMed, yMed);
      assert forall i :: 0 <= i < |init| ==> init[i] == ps[i];
      var b := Collect(ps, xMed, yMed);
      var pb := Collect(init, xMed, yMed);
      forall q, name | name in Bucket(b, q)
        ensures exists i :: 0 <= i < |ps| && ps[i].name == name && Classify(ps[i], xMed, yMed) == q
      {
        if name in Bucket(pb, q) {
          var i :| 0 <= i < |init| && init[i].name == name && Classify(init[i], xMed, yMed) == q;
          assert ps[i] == init[i];
        } else {
          assert ps[|ps| - 1].name == name;
        }
      }
    }
  }

  /** The High-level side holds exactly the points at or above the level
      median, and the High-growth side those at or above the growth median. */
  lemma {:induction false} CollectHighCounts(ps: seq<Point>, xMed: real, yMed: real)
    ensures var b := Collect(ps, xMed, yMed);
            |b.hh| + |b.hl| == CountGe(Xs(ps), xMed)
    ensures var b := Collect(ps, xMed, yMed);
            |b.hh| + |b.lh| == CountGe(Ys(ps), yMed)
    decreases |ps|
  {
    if |ps| > 0 {
      var init := ps[..|ps| - 1];
      var p := ps[|ps| - 1];
      CollectHighCounts(init, xMed, yMed);
      PushHigh(Collect(init, xMed, yMed), p, xMed, yMed);
      assert Xs(ps)[..|ps| - 1] == Xs(init);
      assert Ys(ps)[..|ps| - 1] == Ys(init);
    }
  }

  /** Pushing a point adds one to a High side exactly when the point is at
      or above that median. */
  lemma PushHigh(b: Buckets, p: Point, xMed: real, yMed: real)
    ensures var r := Push(b, Classify(p, xMed, yMed), p.name);
      && |r.hh| + |r.hl| == |b.hh| + |b.hl| + (if p.x >= xMed then 1 else 0)
      && |r.hh| + |r.lh| == |b.hh| + |b.lh| + (if p.y >= yMed then 1 else 0)
  {
  }

  /** Sorts each bucket by name ("keep deterministic ordering"). */
  function SortBuckets(c: Buckets): (b: Buckets)
    ensures forall q :: Ordering.SortedBy(Bucket(b, q), Ordering.StrLe)
    ensures forall q :: multiset(Bucket(b, q)) == multiset(Bucket(c, q))
  {
    var b := Buckets(Ordering.SortNames(c.hh), Ordering.SortNames(c.lh), Ordering.SortNames(c.hl), Ordering.SortNames(c.ll));
    SortedEach(c, b);
    b
  }

  /** Each bucket of `b` is the sorted bucket of `c`. */
  lemma SortedEach(c: Buckets, b: Buckets)
    requires b == Buckets(Ordering.SortNames(c.hh), Ordering.SortNames(c.lh), Ordering.SortNames(c.hl), Ordering.SortNames(c.ll))
    ensures forall q :: Bucket(b, q) == Ordering.SortNames(Bucket(c, q))
  {
    forall q
      ensures Bucket(b, q) == Ordering.SortNames(Bucket(c, q))
    {
      if q == HH {
      } else if q == LH {
      } else if q == HL {
      } else {
      }
    }
  }

  /** The buckets of a list of points (app.js:418-438): when both medians
      exist, the collected buckets, each sorted by name; otherwise (no
      points) four empty lists. */
  function SegmentPoints(ps: seq<Point>): (b: Buckets)
    ensures |ps| == 0 ==> b == Buckets([], [], [], [])
    ensures forall q :: Ordering.SortedBy(Bucket(b, q), Ordering.StrLe)
  {
    var xMed := MedianOf(Xs(ps));
    var yMed := MedianOf(Ys(ps));
    if xMed.Some? && yMed.Some? then SortBuckets(Collect(ps, xMed.value, yMed.value))
    else Buckets([], [], [], [])
  }

  /** `segBuckets` (app.js:412-438): the segmentation of the dataset on the
      productivity level and the growth indicator `yId`. */
  function Segment(data: seq<Row>, yId: ColumnId): (b: Buckets)
    ensures (forall i :: 0 <= i < |data| ==> !Qualifies(data[i], SegX, yId)) ==> b == Buckets([], [], [], [])
    ensures forall q :: Ordering.SortedBy(Bucket(b, q), Ordering.StrLe)
  {
    SegmentPoints(SegPoints(data, SegX, yId))
  }

  /** With points present, the buckets are the collected ones up to the
      order inside each bucket. */
  lemma SegmentSorts(ps: seq<Point>)
    requires |ps| > 0
    ensures var c := Collect(ps, MedianOf(Xs(ps)).value, MedianOf(Ys(ps)).value);
            forall q :: multiset(Bucket(SegmentPoints(ps), q)) == multiset(Bucket(c, q))
  {
  }

  /** The buckets are a permutation of the points' names split four ways. */
  lemma SegmentPartition(ps: seq<Point>)
    ensures var b := SegmentPoints(ps);
            multiset(b.hh) + multiset(b.lh) + multiset(b.hl) + multiset(b.ll) == multiset(Names(ps))
  {
    if |ps| > 0 {
      var xMed := MedianOf(Xs(ps)).value;
      var yMed := MedianOf(Ys(ps)).value;
      CollectPartition(ps, xMed, yMed);
      SegmentSorts(ps);
      var b := SegmentPoints(ps);
      assert multiset(b.hh) == multiset(Bucket(b, HH));
      assert multiset(b.lh) == multiset(Bucket(b, LH));
      assert multiset(b.hl) == multiset(Bucket(b, HL));
      assert multiset(b.ll) == multiset(Bucket(b, LL));
    }
  }

  /** Placement survives sorting: buckets holding the same names as the
      collected ones place every point as `CollectPlacement` does. */
  lemma SortedPlacement(ps: seq<Point>, xMed: real, yMed: real, b: Buckets)
    requires forall q :: multiset(Bucket(b, q)) == multiset(Bucket(Collect(ps, xMed, yMed), q))
    ensures forall i :: 0 <= i < |ps| ==> ps[i].name in Bucket(b, Classify(ps[i], xMed, yMed))
    ensures forall q, name :: name in Bucket(b, q) ==>
              exists i :: 0 <= i < |ps| && ps[i].name == name && Classify(ps[i], xMed, yMed) == q
  {
    CollectPlacement(ps, xMed, yMed);
    var c := Collect(ps, xMed, yMed);
    forall i | 0 <= i < |ps|
      ensures ps[i].name in Bucket(b, Classify(ps[i], xMed, yMed))
    {
      assert ps[i].name in multiset(Bucket(c, Classify(ps[i], xMed, yMed)));
    }
    forall q, name | name in Bucket(b, q)
      ensures exists i :: 0 <= i < |ps| && ps[i].name == name && Classify(ps[i], xMed, yMed) == q
    {
      assert name in multiset(Bucket(c, q));
      assert name in Bucket(c, q);
    }
  }

  /** Every point lands in the bucket its position against the medians
      selects, and every name in a bucket is a point of that quadrant. */
  lemma SegmentPlacement(ps: seq<Point>)
    requires |ps| > 0
    ensures var xMed := MedianOf(Xs(ps)).value;
            var yMed := MedianOf(Ys(ps)).value;
            forall i :: 0 <= i < |ps| ==> ps[i].name in Bucket(SegmentPoints(ps), Classify(ps[i], xMed, yMed))
    ensures var xMed := MedianOf(Xs(ps)).value;
            var yMed := MedianOf(Ys(ps)).value;
            forall q, name :: name in Bucket(SegmentPoints(ps), q) ==>
              exists i :: 0 <= i < |ps| && ps[i].name == name && Classify(ps[i], xMed, yMed) == q
  {
    SegmentSorts(ps);
    SortedPlacement(ps, MedianOf(Xs(ps)).value, MedianOf(Ys(ps)).value, SegmentPoints(ps));
  }

  /** Splitting at the medians keeps at least half of the points on the High
      side of each axis. */
  lemma SegmentHighHalf(ps: seq<Point>)
    ensures var b := SegmentPoints(ps);
            2 * (|b.hh| + |b.hl|) >= |ps|
    ensures var b := SegmentPoints(ps);
            2 * (|b.hh| + |b.lh|) >= |ps|
  {
    if |ps| > 0 {
      var xMed := MedianOf(Xs(ps)).value;
      var yMed := MedianOf(Ys(ps)).value;
      CollectHighCounts(ps, xMed, yMed);
      MedianIsMiddle(Xs(ps));
      MedianIsMiddle(Ys(ps));
      SegmentSorts(ps);
      var c := Collect(ps, xMed, yMed);
      var b := SegmentPoints(ps);
      assert |b.hh| == |c.hh| && |b.hl| == |c.hl| && |b.lh| == |c.lh| by {
        assert |multiset(Bucket(b, HH))| == |multiset(Bucket(c, HH))|;
        assert |multiset(Bucket(b, HL))| == |multiset(Bucket(c, HL))|;
        assert |multiset(Bucket(b, LH))| == |multiset(Bucket(c, LH))|;
      }
    }
  }
}
