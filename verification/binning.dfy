/** Distributions of a growth column: each eligible value is counted in the
    first bin whose test accepts it; values no bin accepts are not counted. */
module Binning {
  import opened Common
  import opened Dataset

  /** A bin: its caption and the test a value must pass to fall into it. */
  datatype Bin = Bin(caption: string, test: real -> bool)

  /** The result of `binCounts`: the number of eligible rows and one count
      per bin. */
  datatype Dist = Dist(n: nat, counts: seq<nat>)

  /** The index of the first bin that accepts `v`. */
  function FirstMatch(bins: seq<Bin>, v: real): (m: Option<nat>)
    ensures m.None? <==> forall i :: 0 <= i < |bins| ==> !bins[i].test(v)
    ensures m.Some? ==> m.value < |bins| && bins[m.value].test(v)
    ensures m.Some? ==> forall j :: 0 <= j < m.value ==> !bins[j].test(v)
  {
    if |bins| == 0 then None
    else if bins[0].test(v) then Some(0)
    else
      var m := FirstMatch(bins[1..], v);
      assert forall i :: 1 <= i < |bins| ==> bins[1..][i - 1] == bins[i];
      if m.Some? then Some(m.value + 1) else None
  }

  /** Adds one to the count of bin `m`, if any. */
  function Bump(counts: seq<nat>, m: Option<nat>): (r: seq<nat>)
  {
    if m.Some? && m.value < |counts| then counts[m.value := counts[m.value] + 1] else counts
  }

  /** The counts after visiting `vs` left to right, one per bin. */
  function Tally(vs: seq<real>, bins: seq<Bin>): (counts: seq<nat>)
    ensures |counts| == |bins|
  {
    if |vs| == 0 then seq(|bins|, _ => 0)
    else Bump(Tally(vs[..|vs| - 1], bins), FirstMatch(bins, vs[|vs| - 1]))
  }

  /** How many of `vs` have bin `i` as their first accepting bin. */
  function CountFirst(vs: seq<real>, bins: seq<Bin>, i: nat): nat
  {
    if |vs| == 0 then 0
    else CountFirst(vs[..|vs| - 1], bins, i) + (if FirstMatch(bins, vs[|vs| - 1]) == Some(i) then 1 else 0)
  }

  /** How many of `vs` some bin accepts. */
  function CountMatched(vs: seq<real>, bins: seq<Bin>): (c: nat)
    ensures c <= |vs|
  {
    if |vs| == 0 then 0
    else CountMatched(vs[..|vs| - 1], bins) + (if FirstMatch(bins, vs[|vs| - 1]).Some? then 1 else 0)
  }

  /** Sum of a sequence of counts. */
  function SumNat(s: seq<nat>): nat
  {
    if |s| == 0 then 0 else SumNat(s[..|s| - 1]) + s[|s| - 1]
  }

  lemma {:induction false} SumNatZeros(n: nat)
    ensures SumNat(seq(n, _ => 0)) == 0
    decreases n
  {
    if n > 0 {
      assert seq(n, _ => 0)[..n - 1] == seq(n - 1, _ => 0);
      SumNatZeros(n - 1);
    }
  }

  /** Adding one to an entry adds one to the sum. */
  lemma {:induction false} SumNatIncrement(s: seq<nat>, i: nat)
    requires i < |s|
    ensures SumNat(s[i := s[i] + 1]) == SumNat(s) + 1
    decreases |s|
  {
    var t := s[i := s[i] + 1];
    if i < |s| - 1 {
      assert t[..|t| - 1] == s[..|s| - 1][i := s[i] + 1];
      SumNatIncrement(s[..|s| - 1], i);
    } else {
      assert t[..|t| - 1] == s[..|s| - 1];
    }
  }

  /** Each tally entry counts the values whose first accepting bin it is. */
  lemma {:induction false} TallyCounts(vs: seq<real>, bins: seq<Bin>)
    ensures forall i :: 0 <= i < |bins| ==> Tally(vs, bins)[i] == CountFirst(vs, bins, i)
    decreases |vs|
  {
    if |vs| > 0 {
      TallyCounts(vs[..|vs| - 1], bins);
    }
  }

  /** The counts add up to the number of values some bin accepts, so never
      to more than the number of values. */
  lemma {:induction false} TallySum(vs: seq<real>, bins: seq<Bin>)
    ensures SumNat(Tally(vs, bins)) == CountMatched(vs, bins) <= |vs|
    decreases |vs|
  {
    if |vs| == 0 {
      SumNatZeros(|bins|);
    } else {
      var init := vs[..|vs| - 1];
      var prev := Tally(init, bins);
      var m := FirstMatch(bins, vs[|vs| - 1]);
      TallySum(init, bins);
      assert Tally(vs, bins) == Bump(prev, m);
      if m.Some? {
        SumNatIncrement(prev, m.value);
      }
    }
  }

  /** The search of the inner loop of `binCounts` (app.js:719-721): the
      first bin whose test accepts `v`. */
  method FindBin(bins: seq<Bin>, v: real) returns (m: Option<nat>)
    ensures m == FirstMatch(bins, v)
  {
    var i := 0;
    while i < |bins|
      invariant 0 <= i <= |bins|
      invariant forall j :: 0 <= j < i ==> !bins[j].test(v)
    {
      if bins[i].test(v) {
        return Some(i);
      }
      i := i + 1;
    }
    return None;
  }

  /** `binCounts` (app.js:714-724): counts the eligible values of `id` by
      first accepting bin; `n` is the number of eligible rows. */
  method BinCounts(data: seq<Row>, id: ColumnId, bins: seq<Bin>) returns (d: Dist)
    ensures d.n == |Numeric(data, id)|
    ensures |d.counts| == |bins|
    ensures forall i :: 0 <= i < |bins| ==> d.counts[i] == CountFirst(EntryValues(Numeric(data, id)), bins, i)
    ensures SumNat(d.counts) <= d.n
  {
    var rows := Numeric(data, id);
    var vs := EntryValues(rows);
    var counts: seq<nat> := seq(|bins|, _ => 0);
    var k := 0;
    while k < |rows|
      invariant 0 <= k <= |rows|
      invariant counts == Tally(vs[..k], bins)
    {
      var m := FindBin(bins, rows[k].v);
      counts := Bump(counts, m);
      assert vs[..k + 1][..k] == vs[..k] && vs[k] == rows[k].v;
      k := k + 1;
    }
    assert vs[..k] == vs;
    TallyCounts(vs, bins);
    TallySum(vs, bins);
    d := Dist(|rows|, counts);
  }

  /** The bins of the distribution cards (app.js:725-731). */
  const GrowthBins: seq<Bin> := [
    Bin("< 0%", v => v < 0.0),
    Bin("0\U{2013}2%", v => v >= 0.0 && v < 2.0),
    Bin("2\U{2013}4%", v => v >= 2.0 && v < 4.0),
    Bin("4\U{2013}6%", v => v >= 4.0 && v < 6.0),
    Bin("\U{2265} 6%", v => v >= 6.0)
  ]

  /** The growth bins are consecutive half-open ranges covering every value:
      each value falls in the bin of its range. */
  lemma GrowthBinsPartition(v: real)
    ensures FirstMatch(GrowthBins, v).Some?
    ensures v < 0.0 <==> FirstMatch(GrowthBins, v) == Some(0)
    ensures 0.0 <= v < 2.0 <==> FirstMatch(GrowthBins, v) == Some(1)
    ensures 2.0 <= v < 4.0 <==> FirstMatch(GrowthBins, v) == Some(2)
    ensures 4.0 <= v < 6.0 <==> FirstMatch(GrowthBins, v) == Some(3)
    ensures 6.0 <= v <==> FirstMatch(GrowthBins, v) == Some(4)
  {
    var m := FirstMatch(GrowthBins, v);
    assert GrowthBins[0].test(v) <==> v < 0.0;
    assert GrowthBins[1].test(v) <==> 0.0 <= v < 2.0;
    assert GrowthBins[2].test(v) <==> 2.0 <= v < 4.0;
    assert GrowthBins[3].test(v) <==> 4.0 <= v < 6.0;
    assert GrowthBins[4].test(v) <==> 6.0 <= v;
  }

  /** Every value is counted exactly once. */
  lemma {:induction false} GrowthBinsCountAll(vs: seq<real>)
    ensures CountMatched(vs, GrowthBins) == |vs|
    decreases |vs|
  {
    if |vs| > 0 {
      GrowthBinsCountAll(vs[..|vs| - 1]);
      GrowthBinsPartition(vs[|vs| - 1]);
    }
  }

  /** With the growth bins the counts add up to `n`. */
  method GrowthDistribution(data: seq<Row>, id: ColumnId) returns (d: Dist)
    ensures d.n == |Numeric(data, id)|
    ensures |d.counts| == |GrowthBins|
    ensures SumNat(d.counts) == d.n
  {
    d := BinCounts(data, id, GrowthBins);
    var vs := EntryValues(Numeric(data, id));
    TallyCounts(vs, GrowthBins);
    TallySum(vs, GrowthBins);
    GrowthBinsCountAll(vs);
    assert d.counts == Tally(vs, GrowthBins);
  }
}
