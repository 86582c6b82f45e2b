/** The GDP treemap: a balanced recursive split of the unit square. The items
    are cut where the running total first passes half of the whole, the
    first part gets a slice of the box proportional to its total, and the
    direction of the cut alternates between vertical and horizontal. */
module Treemap {
  import opened Common
  import opened Dataset
  import Concentration

  datatype Item = Item(name: string, value: real)

  /** The direction of a cut: `Vertical` puts the parts side by side,
      `Horizontal` stacks them. */
  datatype Split = Vertical | Horizontal

  /** The next level cuts the other way. */
  function Flip(d: Split): (e: Split)
    ensures e != d
  {
    if d == Vertical then Horizontal else Vertical
  }

  /** A box in container coordinates. */
  datatype Box = Box(x: real, y: real, w: real, h: real)

  /** An item with the box it is drawn in (`{...item, x, y, w, h}`). */
  datatype Rect = Rect(name: string, value: real, box: Box)

  function ItemValues(items: seq<Item>): (vs: seq<real>)
    ensures |vs| == |items|
    ensures forall k :: 0 <= k < |items| ==> vs[k] == items[k].value
  {
    if |items| == 0 then [] else ItemValues(items[..|items| - 1]) + [items[|items| - 1].value]
  }

  /** The sum of the items' values, left to right (`items.reduce`). */
  function Weight(items: seq<Item>): real
  {
    SumOf(ItemValues(items))
  }

  predicate AllPositive(items: seq<Item>)
  {
    forall k :: 0 <= k < |items| ==> items[k].value > 0.0
  }

  /** What the layout needs: at least one item, positive values and a box
      with non-negative sides. */
  predicate Layable(items: seq<Item>, b: Box)
  {
    |items| >= 1 && AllPositive(items) && b.w >= 0.0 && b.h >= 0.0
  }

  lemma WeightAppend(a: seq<Item>, b: seq<Item>)
    ensures Weight(a + b) == Weight(a) + Weight(b)
  {
    assert ItemValues(a + b) == ItemValues(a) + ItemValues(b);
    SumOfAppend(ItemValues(a), ItemValues(b));
  }

  lemma WeightPositive(items: seq<Item>)
    requires |items| > 0 && AllPositive(items)
    ensures Weight(items) > 0.0
  {
    SumOfPositive(ItemValues(items));
  }

  /** The scan `while (idx < n && acc + items[idx].value <= half)`, with
      `budget` standing for `half - acc`: how many leading items fit. */
  function Greedy(items: seq<Item>, budget: real): (k: nat)
    ensures k <= |items|
  {
    if |items| == 0 || items[0].value > budget then 0
    else Greedy(items[1..], budget - items[0].value) + 1
  }

  /** The greedy prefix stays within the budget, and one more item would
      exceed it. */
  lemma {:induction false} GreedyFits(items: seq<Item>, budget: real)
    ensures var k := Greedy(items, budget);
      (k > 0 ==> Weight(items[..k]) <= budget) && (k < |items| ==> Weight(items[..k + 1]) > budget)
    decreases |items|
  {
    if |items| > 0 {
      if items[0].value > budget {
        WeightOne(items);
      } else {
        var rest := budget - items[0].value;
        var k := Greedy(items[1..], rest);
        assert Greedy(items, budget) == k + 1;
        GreedyFits(items[1..], rest);
        GreedyStep(items, budget, k);
      }
    }
  }

  /** One more item fits when the first does and `k` of the rest fit in
      what is left of the budget. */
  lemma GreedyStep(items: seq<Item>, budget: real, k: nat)
    requires |items| > 0 && items[0].value <= budget && k <= |items| - 1
    requires k > 0 ==> Weight(items[1..][..k]) <= budget - items[0].value
    requires k < |items| - 1 ==> Weight(items[1..][..k + 1]) > budget - items[0].value
    ensures Weight(items[..k + 1]) <= budget
    ensures k + 1 < |items| ==> Weight(items[..k + 2]) > budget
  {
    WeightHead(items, k);
    if k == 0 {
      assert items[1..][..0] == [];
      assert ItemValues([]) == [];
    }
    if k + 1 < |items| {
      WeightHead(items, k + 1);
    }
  }

  lemma WeightOne(items: seq<Item>)
    requires |items| > 0
    ensures Weight(items[..1]) == items[0].value
  {
    var v := items[0].value;
    assert ItemValues(items[..1]) == [v];
    assert [v][..0] == [];
    assert SumOf([v]) == SumOf([]) + v;
  }

  /** Splitting off the first item of a prefix. */
  lemma WeightHead(items: seq<Item>, k: nat)
    requires 0 < |items| && k <= |items| - 1
    ensures Weight(items[..k + 1]) == items[0].value + Weight(items[1..][..k])
  {
    assert items[..k + 1] == [items[0]] + items[1..][..k];
    WeightAppend([items[0]], items[1..][..k]);
    WeightOne([items[0]]);
    assert [items[0]][..1] == [items[0]];
  }

  /** Where the items are cut (app.js:1583-1594): after the longest prefix
      whose total is at most half of the whole, moved inwards so that both
      parts are non-empty. */
  function SplitIndex(items: seq<Item>): (idx: nat)
    requires |items| >= 2
    ensures 1 <= idx <= |items| - 1
  {
    var idx := Greedy(items, Weight(items) / 2.0);
    if idx == 0 then 1
    else if idx == |items| then |items| - 1
    else idx
  }

  /** For positive values the cut is balanced: the first part weighs at most
      half of the whole unless it is the single item that the non-empty rule
      forces in, and one more item would pass half unless the second part is
      already a single item. */
  lemma SplitBalanced(items: seq<Item>)
    requires |items| >= 2 && AllPositive(items)
    ensures var idx := SplitIndex(items);
            idx == 1 || Weight(items[..idx]) <= Weight(items) / 2.0
    ensures var idx := SplitIndex(items);
            idx == |items| - 1 || Weight(items[..idx + 1]) > Weight(items) / 2.0
  {
    var half := Weight(items) / 2.0;
    var g := Greedy(items, half);
    GreedyFits(items, half);
    WeightPositive(items);
    PrefixGrows(items, 1);
    assert items[..|items|] == items;
    BalancedCut(items, g, SplitIndex(items), Weight(items));
  }

  /** `SplitBalanced` from the facts about the greedy prefix `g`. */
  lemma BalancedCut(items: seq<Item>, g: nat, idx: nat, w: real)
    requires |items| >= 2 && g <= |items| && w > 0.0 && Weight(items[..|items|]) == w
    requires idx == (if g == 0 then 1 else if g == |items| then |items| - 1 else g)
    requires g > 0 ==> Weight(items[..g]) <= w / 2.0
    requires g < |items| ==> Weight(items[..g + 1]) > w / 2.0
    requires Weight(items[..2]) > Weight(items[..1])
    ensures idx == 1 || Weight(items[..idx]) <= w / 2.0
    ensures idx == |items| - 1 || Weight(items[..idx + 1]) > w / 2.0
  {
  }

  /** With positive values a longer prefix weighs more. */
  lemma PrefixGrows(items: seq<Item>, k: nat)
    requires k < |items| && AllPositive(items)
    ensures Weight(items[..k + 1]) > Weight(items[..k])
  {
    assert items[..k + 1] == items[..k] + [items[k]];
    WeightAppend(items[..k], [items[k]]);
    WeightOne([items[k]]);
    assert [items[k]][..1] == [items[k]];
  }

  /** The box of the first part and of the second part when a box is cut at
      `ratio`: side by side for a vertical cut, stacked otherwise
      (app.js:1600-1616). */
  function Cut(b: Box, ratio: real, dir: Split): (parts: (Box, Box))
    requires 0.0 <= ratio <= 1.0 && b.w >= 0.0 && b.h >= 0.0
    ensures Within(parts.0, b) && Within(parts.1, b)
    ensures dir == Vertical ==> parts.0.x + parts.0.w == parts.1.x && parts.0.w + parts.1.w == b.w
    ensures dir == Horizontal ==> parts.0.y + parts.0.h == parts.1.y && parts.0.h + parts.1.h == b.h
    ensures dir == Vertical ==> parts.0.y == parts.1.y == b.y && parts.0.h == parts.1.h == b.h
    ensures dir == Horizontal ==> parts.0.x == parts.1.x == b.x && parts.0.w == parts.1.w == b.w
  {
    if dir == Vertical then
      var wA := Scale(b.w, ratio);
      (Box(b.x, b.y, wA, b.h), Box(b.x + wA, b.y, b.w - wA, b.h))
    else
      var hA := Scale(b.h, ratio);
      (Box(b.x, b.y, b.w, hA), Box(b.x, b.y + hA, b.w, b.h - hA))
  }

  /** The first part gets `ratio` of the area and the two parts share it all. */
  lemma CutAreas(b: Box, ratio: real, dir: Split)
    requires 0.0 <= ratio <= 1.0 && b.w >= 0.0 && b.h >= 0.0
    ensures var parts := Cut(b, ratio, dir);
            Area(parts.0) + Area(parts.1) == Area(b) && Area(parts.0) == Area(b) * ratio
  {
    var parts := Cut(b, ratio, dir);
    if dir == Vertical {
      assert parts.0.w == b.w * ratio;
      assert Area(parts.0) + Area(parts.1) == (parts.0.w + parts.1.w) * b.h;
    } else {
      assert parts.0.h == b.h * ratio;
      assert Area(parts.0) + Area(parts.1) == b.w * (parts.0.h + parts.1.h);
    }
  }

  /** `side * ratio` for a ratio in [0, 1]. */
  function Scale(side: real, ratio: real): (s: real)
    requires 0.0 <= ratio <= 1.0 && side >= 0.0
    ensures 0.0 <= s <= side
  {
    assert side * ratio <= side * 1.0;
    side * ratio
  }

  function Area(b: Box): real
  {
    b.w * b.h
  }

  /** `inner` lies inside `outer` and has non-negative sides. */
  predicate Within(inner: Box, outer: Box)
  {
    && inner.w >= 0.0 && inner.h >= 0.0
    && outer.x <= inner.x && inner.x + inner.w <= outer.x + outer.w
    && outer.y <= inner.y && inner.y + inner.h <= outer.y + outer.h
  }

  /** `sumA / total` for a part of a positive whole. */
  function Ratio(part: real, whole: real): (r: real)
    requires 0.0 <= part <= whole && whole > 0.0
    ensures 0.0 <= r <= 1.0
    ensures IsQuotient(r, part, whole)
  {
    DivBounds(part, whole, 0.0, 1.0);
    part / whole
  }

  /** Both parts of a cut list of positive items are lighter than the whole. */
  lemma PartWeights(items: seq<Item>, idx: nat)
    requires 1 <= idx <= |items| - 1 && AllPositive(items)
    ensures 0.0 < Weight(items[..idx]) < Weight(items)
    ensures Weight(items[idx..]) == Weight(items) - Weight(items[..idx])
  {
    assert items == items[..idx] + items[idx..];
    WeightAppend(items[..idx], items[idx..]);
    WeightPositive(items[..idx]);
    WeightPositive(items[idx..]);
  }

  /** The boxes of the two parts of `items` (app.js:1596-1616): the first
      part's share of the weight, `sumA / total`, of the box and the rest. */
  function Halves(items: seq<Item>, b: Box, dir: Split): (parts: (Box, Box))
    requires |items| >= 2 && Layable(items, b)
    ensures Within(parts.0, b) && Within(parts.1, b)
  {
    PartWeights(items, SplitIndex(items));
    Cut(b, Ratio(Weight(items[..SplitIndex(items)]), Weight(items)), dir)
  }

  /** `splitTreemap` (app.js:1577-1617) on a box: one rectangle per item. A
      single item takes the whole box; otherwise the list is cut at
      SplitIndex, the box is cut in proportion to the first part's weight,
      and each part is laid out in its half with the other direction. */
  function SplitTreemap(items: seq<Item>, b: Box, dir: Split): (rects: seq<Rect>)
    requires Layable(items, b)
    ensures |rects| == |items|
    decreases |items|
  {
    if |items| == 1 then [Rect(items[0].name, items[0].value, b)]
    else
      var idx := SplitIndex(items);
      var parts := Halves(items, b, dir);
      SplitTreemap(items[..idx], parts.0, Flip(dir)) + SplitTreemap(items[idx..], parts.1, Flip(dir))
  }

  /** The rectangles carry the items' names and values, in item order. */
  lemma {:induction false} TreemapItems(items: seq<Item>, b: Box, dir: Split)
    requires Layable(items, b)
    ensures var rects := SplitTreemap(items, b, dir);
            forall i :: 0 <= i < |items| ==> rects[i].name == items[i].name && rects[i].value == items[i].value
    decreases |items|
  {
    if |items| > 1 {
      var idx := SplitIndex(items);
      var parts := Halves(items, b, dir);
      SplitParts(items, idx);
      TreemapItems(items[..idx], parts.0, Flip(dir));
      TreemapItems(items[idx..], parts.1, Flip(dir));
      SplitUnfold(items, b, dir);
      CarriesJoin(SplitTreemap(items[..idx], parts.0, Flip(dir)), SplitTreemap(items[idx..], parts.1, Flip(dir)),
                  items[..idx], items[idx..]);
    }
  }

  /** Rectangle `i` carries item `i`'s name and value. */
  predicate Carries(rects: seq<Rect>, items: seq<Item>)
    requires |rects| == |items|
  {
    forall i :: 0 <= i < |items| ==> rects[i].name == items[i].name && rects[i].value == items[i].value
  }

  lemma CarriesJoin(ra: seq<Rect>, rb: seq<Rect>, ia: seq<Item>, ib: seq<Item>)
    requires |ra| == |ia| && |rb| == |ib|
    requires Carries(ra, ia) && Carries(rb, ib)
    ensures Carries(ra + rb, ia + ib)
  {
    forall i | 0 <= i < |ia + ib|
      ensures (ra + rb)[i].name == (ia + ib)[i].name && (ra + rb)[i].value == (ia + ib)[i].value
    {
      if i < |ia| {
        assert (ra + rb)[i] == ra[i] && (ia + ib)[i] == ia[i];
      } else {
        assert (ra + rb)[i] == rb[i - |ia|] && (ia + ib)[i] == ib[i - |ia|];
      }
    }
  }

  /** Both parts of a split are non-empty lists of positive items that make
      up the whole. */
  lemma SplitParts(items: seq<Item>, idx: nat)
    requires 1 <= idx <= |items| - 1 && AllPositive(items)
    ensures && |items[..idx]| >= 1 && |items[idx..]| >= 1
            && AllPositive(items[..idx]) && AllPositive(items[idx..])
            && items[..idx] + items[idx..] == items
  {
    forall k | 0 <= k < |items[..idx]|
      ensures items[..idx][k].value > 0.0
    {
      assert items[..idx][k] == items[k];
    }
    forall k | 0 <= k < |items[idx..]|
      ensures items[idx..][k].value > 0.0
    {
      assert items[idx..][k] == items[idx + k];
    }
    assert items[..idx] + items[idx..] == items;
  }

  /** Every rectangle lies inside the box. */
  predicate AllWithin(rects: seq<Rect>, b: Box)
  {
    forall i :: 0 <= i < |rects| ==> Within(rects[i].box, b)
  }

  lemma WithinJoin(ra: seq<Rect>, rb: seq<Rect>, pa: Box, pb: Box, b: Box)
    requires AllWithin(ra, pa) && AllWithin(rb, pb) && Within(pa, b) && Within(pb, b)
    ensures AllWithin(ra + rb, b)
  {
    forall i | 0 <= i < |ra + rb|
      ensures Within((ra + rb)[i].box, b)
    {
      if i < |ra| {
        assert Within(ra[i].box, pa);
      } else {
        assert Within(rb[i - |ra|].box, pb);
      }
    }
  }

  lemma {:induction false} TreemapWithin(items: seq<Item>, b: Box, dir: Split)
    requires Layable(items, b)
    ensures AllWithin(SplitTreemap(items, b, dir), b)
    decreases |items|
  {
    if |items| > 1 {
      var idx := SplitIndex(items);
      var parts := Halves(items, b, dir);
      SplitParts(items, idx);
      TreemapWithin(items[..idx], parts.0, Flip(dir));
      TreemapWithin(items[idx..], parts.1, Flip(dir));
      SplitUnfold(items, b, dir);
      WithinJoin(SplitTreemap(items[..idx], parts.0, Flip(dir)), SplitTreemap(items[idx..], parts.1, Flip(dir)), parts.0, parts.1, b);
    }
  }

  function Areas(rects: seq<Rect>): (s: seq<real>)
    ensures |s| == |rects|
    ensures forall k :: 0 <= k < |rects| ==> s[k] == Area(rects[k].box)
  {
    if |rects| == 0 then [] else Areas(rects[..|rects| - 1]) + [Area(rects[|rects| - 1].box)]
  }

  lemma AreasAppend(ra: seq<Rect>, rb: seq<Rect>)
    ensures SumOf(Areas(ra + rb)) == SumOf(Areas(ra)) + SumOf(Areas(rb))
  {
    forall k | 0 <= k < |ra + rb|
      ensures Areas(ra + rb)[k] == (Areas(ra) + Areas(rb))[k]
    {
      if k >= |ra| {
        assert (ra + rb)[k] == rb[k - |ra|];
      }
    }
    assert Areas(ra + rb) == Areas(ra) + Areas(rb);
    SumOfAppend(Areas(ra), Areas(rb));
  }

  /** The rectangles tile the box: their areas add up to the box's area. */
  lemma {:induction false} TreemapAreaSum(items: seq<Item>, b: Box, dir: Split)
    requires Layable(items, b)
    ensures SumOf(Areas(SplitTreemap(items, b, dir))) == Area(b)
    decreases |items|
  {
    if |items| == 1 {
      SingleArea(items, b, dir);
    } else {
      var idx := SplitIndex(items);
      var parts := Halves(items, b, dir);
      SplitParts(items, idx);
      var ra := SplitTreemap(items[..idx], parts.0, Flip(dir));
      var rb := SplitTreemap(items[idx..], parts.1, Flip(dir));
      TreemapAreaSum(items[..idx], parts.0, Flip(dir));
      TreemapAreaSum(items[idx..], parts.1, Flip(dir));
      HalvesAreas(items, b, dir);
      SplitUnfold(items, b, dir);
      AreasAppend(ra, rb);
    }
  }

  /** A single item covers its whole box. */
  lemma SingleArea(items: seq<Item>, b: Box, dir: Split)
    requires |items| == 1 && Layable(items, b)
    ensures SumOf(Areas(SplitTreemap(items, b, dir))) == Area(b)
  {
    assert Areas(SplitTreemap(items, b, dir)) == [Area(b)];
    assert [Area(b)][..0] == [];
  }

  /** One step of the layout: the rectangles of the two parts, in order. */
  lemma SplitUnfold(items: seq<Item>, b: Box, dir: Split)
    requires |items| >= 2 && Layable(items, b)
    ensures var idx := SplitIndex(items);
            var parts := Halves(items, b, dir);
            SplitTreemap(items, b, dir)
              == SplitTreemap(items[..idx], parts.0, Flip(dir)) + SplitTreemap(items[idx..], parts.1, Flip(dir))
  {
  }

  /** The two halves of a split cover the box's area. */
  lemma HalvesAreas(items: seq<Item>, b: Box, dir: Split)
    requires |items| >= 2 && Layable(items, b)
    ensures Area(Halves(items, b, dir).0) + Area(Halves(items, b, dir).1) == Area(b)
  {
    var idx := SplitIndex(items);
    PartWeights(items, idx);
    var ratio := Ratio(Weight(items[..idx]), Weight(items));
    CutAreas(b, ratio, dir);
  }

  /** Two boxes whose interiors do not overlap. */
  predicate Disjoint(p: Box, q: Box)
  {
    p.x + p.w <= q.x || q.x + q.w <= p.x || p.y + p.h <= q.y || q.y + q.h <= p.y
  }

  /** No two rectangles overlap. */
  predicate Pairwise(rects: seq<Rect>)
  {
    forall i, j :: 0 <= i < j < |rects| ==> Disjoint(rects[i].box, rects[j].box)
  }

  /** Boxes inside the two different parts of a cut do not overlap. */
  lemma SidesApart(p: Box, q: Box, pa: Box, pb: Box, dir: Split)
    requires Within(p, pa) && Within(q, pb)
    requires dir == Vertical ==> pa.x + pa.w == pb.x
    requires dir == Horizontal ==> pa.y + pa.h == pb.y
    ensures Disjoint(p, q)
  {
  }

  lemma DisjointJoin(ra: seq<Rect>, rb: seq<Rect>, pa: Box, pb: Box, dir: Split)
    requires Pairwise(ra) && Pairwise(rb) && AllWithin(ra, pa) && AllWithin(rb, pb)
    requires dir == Vertical ==> pa.x + pa.w == pb.x
    requires dir == Horizontal ==> pa.y + pa.h == pb.y
    ensures Pairwise(ra + rb)
  {
    var rects := ra + rb;
    forall i, j | 0 <= i < j < |rects|
      ensures Disjoint(rects[i].box, rects[j].box)
    {
      if j < |ra| {
        assert rects[i] == ra[i] && rects[j] == ra[j];
      } else if i >= |ra| {
        assert rects[i] == rb[i - |ra|] && rects[j] == rb[j - |ra|];
      } else {
        assert Within(ra[i].box, pa) && Within(rb[j - |ra|].box, pb);
        SidesApart(ra[i].box, rb[j - |ra|].box, pa, pb, dir);
      }
    }
  }

  lemma {:induction false} TreemapDisjoint(items: seq<Item>, b: Box, dir: Split)
    requires Layable(items, b)
    ensures Pairwise(SplitTreemap(items, b, dir))
    decreases |items|
  {
    if |items| > 1 {
      var idx := SplitIndex(items);
      var parts := Halves(items, b, dir);
      TreemapDisjoint(items[..idx], parts.0, Flip(dir));
      TreemapDisjoint(items[idx..], parts.1, Flip(dir));
      TreemapWithin(items[..idx], parts.0, Flip(dir));
      TreemapWithin(items[idx..], parts.1, Flip(dir));
      DisjointJoin(SplitTreemap(items[..idx], parts.0, Flip(dir)), SplitTreemap(items[idx..], parts.1, Flip(dir)), parts.0, parts.1, dir);
    }
  }

  /** `x` is the share `s / t` of `a`, stated without division. */
  predicate Share(x: real, a: real, s: real, t: real)
  {
    x * t == a * s
  }

  /** The step of the proportional-area induction, over plain reals. */
  lemma Proportion(ar: real, sA: real, t: real, aA: real, a: real, v: real)
    requires Share(ar, aA, v, sA) && Share(aA, a, sA, t) && sA > 0.0
    ensures Share(ar, a, v, t)
  {
    assert ar * t * sA == ar * sA * t;
    assert ar * sA * t == aA * v * t;
    assert aA * v * t == aA * t * v;
    assert aA * t * v == a * sA * v;
    assert (ar * t - a * v) * sA == 0.0;
  }

  /** The shares of a cut: `ratio` of the area for the first part's weight,
      the rest of the area for the rest of the weight. */
  lemma CutShares(a: real, aA: real, aB: real, ratio: real, t: real, sA: real, sB: real)
    requires aA + aB == a && aA == a * ratio && IsQuotient(ratio, sA, t) && sB == t - sA
    ensures Share(aA, a, sA, t) && Share(aB, a, sB, t)
  {
    assert aA * t == a * (ratio * t);
    assert aB * t == a * t - aA * t;
  }

  /** A cut at `sA / t` gives the first part the share `sA / t` of the
      area and the second part the share `sB / t`, where `sB = t - sA`. */
  lemma CutShareOfArea(b: Box, ratio: real, dir: Split, sA: real, sB: real, t: real)
    requires 0.0 <= ratio <= 1.0 && b.w >= 0.0 && b.h >= 0.0
    requires IsQuotient(ratio, sA, t) && sB == t - sA
    ensures Share(Area(Cut(b, ratio, dir).0), Area(b), sA, t)
    ensures Share(Area(Cut(b, ratio, dir).1), Area(b), sB, t)
  {
    var parts := Cut(b, ratio, dir);
    CutAreas(b, ratio, dir);
    CutShares(Area(b), Area(parts.0), Area(parts.1), ratio, t, sA, sB);
  }

  /** The two halves of a split get the shares of the area that their items
      have of the weight. */
  lemma HalvesShares(items: seq<Item>, b: Box, dir: Split)
    requires |items| >= 2 && Layable(items, b)
    ensures var idx := SplitIndex(items);
            var parts := Halves(items, b, dir);
            && Share(Area(parts.0), Area(b), Weight(items[..idx]), Weight(items))
            && Share(Area(parts.1), Area(b), Weight(items[idx..]), Weight(items))
  {
    var idx := SplitIndex(items);
    PartWeights(items, idx);
    var ratio := Ratio(Weight(items[..idx]), Weight(items));
    CutShareOfArea(b, ratio, dir, Weight(items[..idx]), Weight(items[idx..]), Weight(items));
  }

  /** Each rectangle's area is `area * value / total`. */
  predicate Proportional(rects: seq<Rect>, items: seq<Item>, area: real, total: real)
    requires |rects| == |items|
  {
    forall i :: 0 <= i < |rects| ==> Share(Area(rects[i].box), area, items[i].value, total)
  }

  /** Scaling a part's proportions up to the whole. */
  lemma ProportionalLift(rects: seq<Rect>, items: seq<Item>, aA: real, sA: real, a: real, t: real)
    requires |rects| == |items| && Proportional(rects, items, aA, sA)
    requires Share(aA, a, sA, t) && sA > 0.0
    ensures Proportional(rects, items, a, t)
  {
    forall i | 0 <= i < |rects|
      ensures Share(Area(rects[i].box), a, items[i].value, t)
    {
      Proportion(Area(rects[i].box), sA, t, aA, a, items[i].value);
    }
  }

  lemma ProportionalJoin(ra: seq<Rect>, rb: seq<Rect>, ia: seq<Item>, ib: seq<Item>, a: real, t: real)
    requires |ra| == |ia| && |rb| == |ib|
    requires Proportional(ra, ia, a, t) && Proportional(rb, ib, a, t)
    ensures Proportional(ra + rb, ia + ib, a, t)
  {
    forall i | 0 <= i < |ra + rb|
      ensures Share(Area((ra + rb)[i].box), a, (ia + ib)[i].value, t)
    {
      if i >= |ra| {
        assert (ra + rb)[i] == rb[i - |ra|] && (ia + ib)[i] == ib[i - |ra|];
      }
    }
  }

  /** Each rectangle's share of the box is its item's share of the total:
      area * total == box area * value. */
  lemma {:induction false} TreemapProportional(items: seq<Item>, b: Box, dir: Split)
    requires Layable(items, b)
    ensures Proportional(SplitTreemap(items, b, dir), items, Area(b), Weight(items))
    decreases |items|
  {
    if |items| == 1 {
      ProportionalOne(items, b, dir);
    } else {
      var idx := SplitIndex(items);
      var parts := Halves(items, b, dir);
      SplitParts(items, idx);
      TreemapProportional(items[..idx], parts.0, Flip(dir));
      TreemapProportional(items[idx..], parts.1, Flip(dir));
      ProportionalStep(items, b, dir);
    }
  }

  /** A single item takes the whole box, which is its whole share. */
  lemma ProportionalOne(items: seq<Item>, b: Box, dir: Split)
    requires |items| == 1 && Layable(items, b)
    ensures Proportional(SplitTreemap(items, b, dir), items, Area(b), Weight(items))
  {
    WeightOne(items);
    assert items[..1] == items;
  }

  /** The step of `TreemapProportional`: proportional layouts of the two
      halves make a proportional layout of the whole. */
  lemma ProportionalStep(items: seq<Item>, b: Box, dir: Split)
    requires |items| >= 2 && Layable(items, b)
    requires var idx := SplitIndex(items); var parts := Halves(items, b, dir);
      && Proportional(SplitTreemap(items[..idx], parts.0, Flip(dir)), items[..idx], Area(parts.0), Weight(items[..idx]))
      && Proportional(SplitTreemap(items[idx..], parts.1, Flip(dir)), items[idx..], Area(parts.1), Weight(items[idx..]))
    ensures Proportional(SplitTreemap(items, b, dir), items, Area(b), Weight(items))
  {
    var idx := SplitIndex(items);
    var parts := Halves(items, b, dir);
    SplitParts(items, idx);
    var ra := SplitTreemap(items[..idx], parts.0, Flip(dir));
    var rb := SplitTreemap(items[idx..], parts.1, Flip(dir));
    PartWeights(items, idx);
    HalvesShares(items, b, dir);
    SplitUnfold(items, b, dir);
    ProportionalCombine(ra, rb, items[..idx], items[idx..], Area(parts.0), Area(parts.1), Area(b),
                        Weight(items[..idx]), Weight(items[idx..]), Weight(items));
  }

  /** Proportional layouts of two parts, each scaled to its share of the
      whole, make a proportional layout of the whole. */
  lemma ProportionalCombine(ra: seq<Rect>, rb: seq<Rect>, ia: seq<Item>, ib: seq<Item>,
                            aA: real, aB: real, a: real, sA: real, sB: real, t: real)
    requires |ra| == |ia| && |rb| == |ib|
    requires Proportional(ra, ia, aA, sA) && Proportional(rb, ib, aB, sB)
    requires Share(aA, a, sA, t) && Share(aB, a, sB, t) && sA > 0.0 && sB > 0.0
    ensures Proportional(ra + rb, ia + ib, a, t)
  {
    ProportionalLift(ra, ia, aA, sA, a, t);
    ProportionalLift(rb, ib, aB, sB, a, t);
    ProportionalJoin(ra, rb, ia, ib, a, t);
  }

  /** The items of the GDP modal: the eligible GDP entries as name/value
      pairs. */
  function Items(rows: seq<Entry>): (items: seq<Item>)
    ensures |items| == |rows|
    ensures forall k :: 0 <= k < |rows| ==> items[k] == Item(rows[k].name, rows[k].v)
  {
    if |rows| == 0 then [] else Items(rows[..|rows| - 1]) + [Item(rows[|rows| - 1].name, rows[|rows| - 1].v)]
  }

  lemma ItemsWeight(rows: seq<Entry>)
    ensures Weight(Items(rows)) == Concentration.Total(rows)
  {
    assert ItemValues(Items(rows)) == EntryValues(rows);
  }

  /** GDP is positive wherever it is given. */
  predicate PositiveGdp(data: seq<Row>)
  {
    forall k :: 0 <= k < |Concentration.GdpRows(data)| ==> Concentration.GdpRows(data)[k].v > 0.0
  }

  const Unit := Box(0.0, 0.0, 1.0, 1.0)

  /** The GDP treemap of the modal (app.js:1631-1642): the entries by
      non-increasing GDP laid out in the unit square, the first cut
      vertical; no rectangles when no economy has a GDP value. */
  function GdpTreemap(data: seq<Row>): (rects: seq<Rect>)
    requires PositiveGdp(data)
    ensures |rects| == |Concentration.GdpRows(data)|
  {
    var items := Items(Concentration.GdpRows(data));
    if |items| == 0 then [] else SplitTreemap(items, Unit, Vertical)
  }

  /** The GDP treemap draws every economy with a GDP value once, largest
      first, inside the unit square, and no two rectangles overlap. */
  lemma GdpTreemapLayout(data: seq<Row>)
    requires PositiveGdp(data) && |Concentration.GdpRows(data)| > 0
    ensures var rows := Concentration.GdpRows(data);
            var rects := GdpTreemap(data);
            && (forall i :: 0 <= i < |rows| ==> rects[i].name == rows[i].name && rects[i].value == rows[i].v)
            && (forall i, j :: 0 <= i < j < |rects| ==> rects[i].value >= rects[j].value)
            && AllWithin(rects, Unit) && Pairwise(rects)
  {
    var items := Items(Concentration.GdpRows(data));
    TreemapItems(items, Unit, Vertical);
    TreemapWithin(items, Unit, Vertical);
    TreemapDisjoint(items, Unit, Vertical);
  }

  /** Each rectangle of the unit square has its economy's share of the
      total as its area. */
  predicate AreaIsGdpShare(rects: seq<Rect>, rows: seq<Entry>)
    requires |rects| == |rows|
  {
    forall i :: 0 <= i < |rects| ==> Area(rects[i].box) * Concentration.Total(rows) == rows[i].v
  }

  /** Each economy's rectangle has the area of its share of total GDP, and
      the areas fill the unit square. */
  lemma GdpTreemapAreas(data: seq<Row>)
    requires PositiveGdp(data) && |Concentration.GdpRows(data)| > 0
    ensures var rows := Concentration.GdpRows(data);
            var rects := GdpTreemap(data);
            && AreaIsGdpShare(rects, rows) && SumOf(Areas(rects)) == 1.0
  {
    var rows := Concentration.GdpRows(data);
    assert GdpTreemap(data) == SplitTreemap(Items(rows), Unit, Vertical);
    UnitAreaShares(rows);
    UnitAreaSum(rows);
  }

  lemma {:induction false} UnitAreaShares(rows: seq<Entry>)
    requires |rows| > 0 && forall k :: 0 <= k < |rows| ==> rows[k].v > 0.0
    ensures AreaIsGdpShare(SplitTreemap(Items(rows), Unit, Vertical), rows)
  {
    var items := Items(rows);
    TreemapProportional(items, Unit, Vertical);
    ItemsWeight(rows);
    UnitShares(SplitTreemap(items, Unit, Vertical), items, rows);
  }

  lemma {:induction false} UnitAreaSum(rows: seq<Entry>)
    requires |rows| > 0 && forall k :: 0 <= k < |rows| ==> rows[k].v > 0.0
    ensures SumOf(Areas(SplitTreemap(Items(rows), Unit, Vertical))) == 1.0
  {
    TreemapAreaSum(Items(rows), Unit, Vertical);
  }

  /** Shares of the unit square are plain fractions of the weight. */
  lemma UnitShares(rects: seq<Rect>, items: seq<Item>, rows: seq<Entry>)
    requires |rects| == |items| == |rows|
    requires forall k :: 0 <= k < |rows| ==> items[k].value == rows[k].v
    requires Proportional(rects, items, Area(Unit), Weight(items))
    requires Weight(items) == Concentration.Total(rows)
    ensures AreaIsGdpShare(rects, rows)
  {
    forall i | 0 <= i < |rects|
      ensures Area(rects[i].box) * Concentration.Total(rows) == rows[i].v
    {
      assert Share(Area(rects[i].box), Area(Unit), items[i].value, Weight(items));
    }
  }

  /** JavaScript's `s.slice(from, to)` for non-negative bounds: both ends are
      clamped to the length. */
  function Slice(s: seq<Item>, from: nat, to: nat): (r: seq<Item>)
    ensures |r| <= |s|
  {
    var a := if from < |s| then from else |s|;
    var b := if to < |s| then to else |s|;
    if a <= b then s[a..b] else []
  }

  /** The two lists `splitTreemap` recurses on when `items.length !== 1`,
      exactly as written (app.js:1583-1597): nothing stops an empty list
      from reaching the cut. */
  function SplitStepAsWritten(items: seq<Item>): (parts: (seq<Item>, seq<Item>))
  {
    var g := Greedy(items, Weight(items) / 2.0);
    var idx := if g == 0 then 1 else g;
    var idx2 := if idx == |items| then idx - 1 else idx;
    (Slice(items, 0, idx2), Slice(items, idx2, |items|))
  }

  /** On two or more items the step as written is the modelled cut. */
  lemma SplitStepAgrees(items: seq<Item>)
    requires |items| >= 2
    ensures SplitStepAsWritten(items) == (items[..SplitIndex(items)], items[SplitIndex(items)..])
  {
    var idx := SplitIndex(items);
    assert items[idx..|items|] == items[idx..];
  }

  /** On an empty list (an open GDP modal when no economy has a GDP value)
      the step as written hands the same empty list to both recursive calls,
      so the recursion never reaches its one-item base case. */
  lemma EmptySplitNoProgress()
    ensures SplitStepAsWritten([]).0 == [] && SplitStepAsWritten([]).1 == []
    ensures |SplitStepAsWritten([]).0| != 1
  {
  }
}
