/** Curve segmentation and per-curve rail-corrugation statistics.

    Measurement records of one line are filtered by line name and radius,
    cut into curves by a change-point rule on the radius, and summarised per
    curve: start, end and mean radius, combined defect channels, and per-side
    worst medians with the wear margin left before the design limit. */
module CurveAnalysis {
  import opened Common

  // ---------------------------------------------------------------------
  // Records

  /** Raw corrugation depths of one rail side, one per wavelength band (mm). */
  datatype Bands = Bands(
    atm10_30: Option<real>,
    atm30_100: Option<real>,
    atm100_300: Option<real>,
    atm300_1000: Option<real>)

  /** One measurement row: line name, position interval `[von, bis)` (m),
      horizontal-geometry radius (possibly missing) and both rail sides. */
  datatype Measurement = Measurement(
    line: string,
    von: real,
    bis: real,
    radius: Option<real>,
    left: Bands,
    right: Bands)

  /** The three channels analysed per side: two combined bands and one raw. */
  datatype Channels = Channels(
    cal10_100: Option<real>,
    cal30_300: Option<real>,
    atm300_1000: Option<real>)

  /** A kept measurement row with the columns `fun_groupe` adds to it. */
  datatype CurveRecord = CurveRecord(
    m: Measurement,
    groupe: nat,
    left: Channels,
    right: Channels,
    kmDebut: real,
    kmFin: real,
    rayonCourbe: real,
    long: real)

  datatype Side = Left | Right
  datatype Channel = Cal10_100 | Cal30_300 | Atm300_1000

  // ---------------------------------------------------------------------
  // Sequence statistics

  function Sum(xs: seq<real>): real
  {
    if xs == [] then 0.0 else xs[0] + Sum(xs[1..])
  }

  function Mean(xs: seq<real>): real
    requires |xs| > 0
  {
    Sum(xs) / (|xs| as real)
  }

  function Sq(x: real): real
  {
    x * x
  }

  /** Sum of squared deviations of `xs` from `m`. */
  function SqDev(xs: seq<real>, m: real): real
  {
    if xs == [] then 0.0 else Sq(xs[0] - m) + SqDev(xs[1..], m)
  }

  function SeqMin(xs: seq<real>): (r: real)
    requires |xs| > 0
    ensures r in xs
    ensures forall x :: x in xs ==> r <= x
  {
    if |xs| == 1 then
      xs[0]
    else
      assert xs == [xs[0]] + xs[1..];
      MinR(xs[0], SeqMin(xs[1..]))
  }

  function SeqMax(xs: seq<real>): (r: real)
    requires |xs| > 0
    ensures r in xs
    ensures forall x :: x in xs ==> x <= r
  {
    if |xs| == 1 then
      xs[0]
    else
      assert xs == [xs[0]] + xs[1..];
      MaxR(xs[0], SeqMax(xs[1..]))
  }

  predicate AllEqual(xs: seq<real>)
  {
    forall i :: 0 <= i < |xs| ==> xs[i] == xs[0]
  }

  lemma {:induction false} SumOfConstant(xs: seq<real>, c: real)
    requires forall x :: x in xs ==> x == c
    ensures Sum(xs) == (|xs| as real) * c
  {
    if xs != [] {
      assert xs[0] in xs;
      assert forall x :: x in xs[1..] ==> x in xs;
      SumOfConstant(xs[1..], c);
    }
  }

  /** The mean of a run of equal values is that value. */
  lemma MeanOfConstant(xs: seq<real>, c: real)
    requires |xs| > 0
    requires forall x :: x in xs ==> x == c
    ensures Mean(xs) == c
  {
    SumOfConstant(xs, c);
    var n := |xs| as real;
    assert Sum(xs) / n == (n * c) / n;
  }

  lemma SqOfPositive(d: real)
    requires d > 0.0
    ensures Sq(d) > 0.0
  {
    calc {
      Sq(d);
      d * d;
    >  { assert d * d > 0.0 * d; }
      0.0;
    }
  }

  lemma SqPositive(d: real)
    requires d != 0.0
    ensures Sq(d) > 0.0
  {
    if d < 0.0 {
      assert Sq(d) == Sq(-d);
      SqOfPositive(-d);
    } else {
      SqOfPositive(d);
    }
  }

  lemma {:induction false} SqDevNonNegative(xs: seq<real>, m: real)
    ensures SqDev(xs, m) >= 0.0
  {
    if xs != [] {
      SqDevNonNegative(xs[1..], m);
      if xs[0] != m { SqPositive(xs[0] - m); }
    }
  }

  /** No deviation when every value is `m`. */
  lemma {:induction false} SqDevZeroAt(xs: seq<real>, m: real)
    requires forall i :: 0 <= i < |xs| ==> xs[i] == m
    ensures SqDev(xs, m) == 0.0
  {
    if xs != [] {
      assert xs[0] - m == 0.0;
      SqDevZeroAt(xs[1..], m);
    }
  }

  /** A positive deviation as soon as one value differs from `m`. */
  lemma {:induction false} SqDevPositiveOff(xs: seq<real>, m: real, k: nat)
    requires k < |xs| && xs[k] != m
    ensures SqDev(xs, m) > 0.0
  {
    SqDevNonNegative(xs[1..], m);
    if k == 0 {
      SqPositive(xs[0] - m);
    } else {
      SqDevPositiveOff(xs[1..], m, k - 1);
      if xs[0] != m { SqPositive(xs[0] - m); }
    }
  }

  /** The sample standard deviation of `xs` is positive exactly when `xs` has
      two different values (for at least two values). */
  lemma StdPositiveIffVaried(xs: seq<real>)
    requires |xs| > 1
    ensures SqDev(xs, Mean(xs)) > 0.0 <==> !AllEqual(xs)
  {
    if AllEqual(xs) {
      assert forall x :: x in xs ==> x == xs[0];
      MeanOfConstant(xs, xs[0]);
      SqDevZeroAt(xs, Mean(xs));
    } else {
      var k :| 0 <= k < |xs| && xs[k] != xs[0];
      if xs[0] != Mean(xs) {
        SqDevPositiveOff(xs, Mean(xs), 0);
      } else {
        SqDevPositiveOff(xs, Mean(xs), k);
      }
    }
  }

  /** `safe_skew`: 0 for fewer than two values or zero spread, the skewness
      estimator otherwise. The spread test is the sample standard deviation
      being positive, i.e. a positive sum of squared deviations. */
  function SafeSkew(xs: seq<real>, skew: seq<real> -> real): (r: real)
    ensures |xs| < 2 || AllEqual(xs) ==> r == 0.0
    ensures |xs| >= 2 && !AllEqual(xs) ==> r == skew(xs)
  {
    if |xs| <= 1 then
      0.0
    else
      StdPositiveIffVaried(xs);
      if SqDev(xs, Mean(xs)) > 0.0 then skew(xs) else 0.0
  }

  // ---------------------------------------------------------------------
  // fun_groupe

  /** A row survives the filter of `fun_groupe`: its line is the requested
      one and its radius is present and inside `[rMin, rMax]` (a missing
      radius compares false and is dropped). */
  predicate Kept(m: Measurement, line: string, rMin: real, rMax: real)
  {
    m.line == line && m.radius.Some? && rMin <= m.radius.value <= rMax
  }

  function Filter(ms: seq<Measurement>, line: string, rMin: real, rMax: real): (r: seq<Measurement>)
    ensures forall i :: 0 <= i < |r| ==> Kept(r[i], line, rMin, rMax)
    ensures |r| <= |ms|
  {
    if ms == [] then
      []
    else
      assert ms == [ms[0]] + ms[1..];
      (if Kept(ms[0], line, rMin, rMax) then [ms[0]] else []) + Filter(ms[1..], line, rMin, rMax)
  }

  /** A row is in the filtered frame iff it is an input row that passes the
      mask. */
  lemma {:induction false} FilterMembers(ms: seq<Measurement>, line: string, rMin: real, rMax: real)
    ensures forall m :: m in Filter(ms, line, rMin, rMax) <==> m in ms && Kept(m, line, rMin, rMax)
  {
    if ms != [] {
      FilterMembers(ms[1..], line, rMin, rMax);
      assert ms == [ms[0]] + ms[1..];
    }
  }

  /** The mask works row by row: filtering a concatenation concatenates
      the filtered parts. */
  lemma {:induction false} FilterAppend(a: seq<Measurement>, b: seq<Measurement>, line: string, rMin: real, rMax: real)
    ensures Filter(a + b, line, rMin, rMax) == Filter(a, line, rMin, rMax) + Filter(b, line, rMin, rMax)
  {
    if a == [] {
      assert a + b == b;
    } else {
      assert (a + b)[0] == a[0] && (a + b)[1..] == a[1..] + b;
      FilterAppend(a[1..], b, line, rMin, rMax);
      var h := if Kept(a[0], line, rMin, rMax) then [a[0]] else [];
      calc {
        Filter(a + b, line, rMin, rMax);
        h + Filter(a[1..] + b, line, rMin, rMax);
        h + (Filter(a[1..], line, rMin, rMax) + Filter(b, line, rMin, rMax));
        (h + Filter(a[1..], line, rMin, rMax)) + Filter(b, line, rMin, rMax);
      }
    }
  }

  /** A stretch of rows none of which is kept leaves nothing. */
  lemma {:induction false} FilterNone(ms: seq<Measurement>, line: string, rMin: real, rMax: real)
    requires forall k :: 0 <= k < |ms| ==> !Kept(ms[k], line, rMin, rMax)
    ensures Filter(ms, line, rMin, rMax) == []
  {
    if ms != [] {
      FilterNone(ms[1..], line, rMin, rMax);
    }
  }

  /** A kept row `ms[k]` lands in the filtered frame at the position given by
      the number of kept rows before it. */
  lemma FilterPosition(ms: seq<Measurement>, line: string, rMin: real, rMax: real, k: nat)
    requires k < |ms| && Kept(ms[k], line, rMin, rMax)
    ensures var p := |Filter(ms[..k], line, rMin, rMax)|;
      p < |Filter(ms, line, rMin, rMax)| && Filter(ms, line, rMin, rMax)[p] == ms[k]
  {
    assert ms == ms[..k] + ms[k..];
    FilterAppend(ms[..k], ms[k..], line, rMin, rMax);
    assert ms[k..][0] == ms[k];
  }

  /** Kept rows keep their order: an earlier kept row has fewer kept rows
      before it. */
  lemma FilterPositionsIncrease(ms: seq<Measurement>, line: string, rMin: real, rMax: real, j: nat, k: nat)
    requires j < k <= |ms| && Kept(ms[j], line, rMin, rMax)
    ensures |Filter(ms[..j], line, rMin, rMax)| < |Filter(ms[..k], line, rMin, rMax)|
  {
    assert ms[..k] == ms[..j] + ms[j..k];
    FilterAppend(ms[..j], ms[j..k], line, rMin, rMax);
    assert ms[j..k][0] == ms[j];
  }

  /** Every row of the filtered frame is a kept row `ms[k]`, sitting at the
      position given by the number of kept rows before it. */
  lemma FilterIndex(ms: seq<Measurement>, line: string, rMin: real, rMax: real, p: nat)
    requires p < |Filter(ms, line, rMin, rMax)|
    ensures exists k :: (0 <= k < |ms| && Kept(ms[k], line, rMin, rMax) &&
      |Filter(ms[..k], line, rMin, rMax)| == p && Filter(ms, line, rMin, rMax)[p] == ms[k])
  {
    var k := FilterSource(ms, line, rMin, rMax, p);
  }

  /** The input row behind position `p` of the filtered frame. */
  lemma {:induction false} FilterSource(ms: seq<Measurement>, line: string, rMin: real, rMax: real, p: nat)
    returns (k: nat)
    requires p < |Filter(ms, line, rMin, rMax)|
    ensures k < |ms| && Kept(ms[k], line, rMin, rMax)
    ensures |Filter(ms[..k], line, rMin, rMax)| == p && Filter(ms, line, rMin, rMax)[p] == ms[k]
  {
    var tail := ms[1..];
    var h := if Kept(ms[0], line, rMin, rMax) then [ms[0]] else [];
    assert Filter(ms, line, rMin, rMax) == h + Filter(tail, line, rMin, rMax);
    if h != [] && p == 0 {
      k := 0;
      assert ms[..0] == [];
    } else {
      var k' := FilterSource(tail, line, rMin, rMax, p - |h|);
      k := k' + 1;
      FilterPrefixStep(ms, line, rMin, rMax, k');
    }
  }

  /** Counting kept rows before `k' + 1` counts the first row, then the kept
      rows of the tail before `k'`. */
  lemma FilterPrefixStep(ms: seq<Measurement>, line: string, rMin: real, rMax: real, k': nat)
    requires k' < |ms| - 1
    ensures |Filter(ms[..k' + 1], line, rMin, rMax)| ==
      (if Kept(ms[0], line, rMin, rMax) then 1 else 0) + |Filter(ms[1..][..k'], line, rMin, rMax)|
  {
    var pre := ms[..k' + 1];
    assert pre[0] == ms[0] && pre[1..] == ms[1..][..k'];
  }

  /** The change-point scan `(x != x.shift()).cumsum()`: the first id is 1
      (the shifted value of the first row is missing, so it compares
      different), and each later row adds 1 when its radius differs from the
      previous row's. */
  function GroupIds(radii: seq<real>): (ids: seq<nat>)
    ensures |ids| == |radii|
    ensures |radii| > 0 ==> ids[0] == 1
    ensures forall i :: 0 < i < |radii| ==> IdStep(radii, ids, i)
  {
    if radii == [] then
      []
    else
      var n := |radii| - 1;
      var prev := GroupIds(radii[..n]);
      var ids := prev + [if n == 0 then 1 else prev[n - 1] + (if radii[n] != radii[n - 1] then 1 else 0)];
      assert forall i :: 0 < i < n ==> IdStep(radii, ids, i) by {
        forall i | 0 < i < n
          ensures IdStep(radii, ids, i)
        {
          assert IdStep(radii[..n], prev, i);
        }
      }
      ids
  }

  /** The id of row `i` is the previous one, plus 1 when the radius changes. */
  predicate IdStep(radii: seq<real>, ids: seq<nat>, i: nat)
    requires 0 < i < |radii| == |ids|
  {
    ids[i] == ids[i - 1] + (if radii[i] != radii[i - 1] then 1 else 0)
  }

  /** Ids that start at 1 and grow by 0 or 1 from one row to the next. */
  predicate Consecutive(ids: seq<nat>)
  {
    (|ids| > 0 ==> ids[0] == 1) &&
    forall i :: 0 < i < |ids| ==> UnitStep(ids, i)
  }

  /** The id of row `i` equals the previous one or exceeds it by 1. */
  predicate UnitStep(ids: seq<nat>, i: nat)
    requires 0 < i < |ids|
  {
    ids[i] == ids[i - 1] || ids[i] == ids[i - 1] + 1
  }

  lemma GroupIdsConsecutive(radii: seq<real>)
    ensures Consecutive(GroupIds(radii))
  {
    var ids := GroupIds(radii);
    forall i | 0 < i < |ids|
      ensures UnitStep(ids, i)
    {
      assert IdStep(radii, ids, i);
    }
  }

  /** Between rows `i` and `j` ids never decrease, and they stay equal exactly
      when the radius does not change anywhere in between. */
  lemma {:induction false} GroupIdsRun(radii: seq<real>, i: nat, j: nat)
    requires i <= j < |radii|
    ensures GroupIds(radii)[i] <= GroupIds(radii)[j]
    ensures GroupIds(radii)[i] == GroupIds(radii)[j] <==>
      forall k :: i < k <= j ==> radii[k] == radii[k - 1]
    decreases j - i
  {
    if i < j {
      GroupIdsRun(radii, i, j - 1);
      assert IdStep(radii, GroupIds(radii), j);
    }
  }

  lemma {:induction false} ConstantRun(radii: seq<real>, i: nat, j: nat)
    requires i <= j < |radii|
    requires forall k :: i < k <= j ==> radii[k] == radii[k - 1]
    ensures radii[j] == radii[i]
    decreases j - i
  {
    if i < j {
      ConstantRun(radii, i, j - 1);
    }
  }

  /** Rows with the same id have the same radius. */
  lemma SameGroupSameRadius(radii: seq<real>, i: nat, j: nat)
    requires i < |radii| && j < |radii|
    requires GroupIds(radii)[i] == GroupIds(radii)[j]
    ensures radii[i] == radii[j]
  {
    if i <= j {
      GroupIdsRun(radii, i, j);
      ConstantRun(radii, i, j);
    } else {
      GroupIdsRun(radii, j, i);
      ConstantRun(radii, j, i);
    }
  }

  /** With consecutive ids every id from 1 to the last one is used. */
  lemma {:induction false} ConsecutiveCovers(ids: seq<nat>, g: nat)
    requires Consecutive(ids) && |ids| > 0
    requires 1 <= g <= ids[|ids| - 1]
    ensures exists i :: 0 <= i < |ids| && ids[i] == g
  {
    var n := |ids| - 1;
    if g != ids[n] {
      assert n > 0;
      forall i | 0 < i < n
        ensures UnitStep(ids[..n], i)
      {
        assert UnitStep(ids, i);
      }
      assert UnitStep(ids, n);
      ConsecutiveCovers(ids[..n], g);
      var i :| 0 <= i < n && ids[..n][i] == g;
      assert ids[i] == g;
    }
  }

  /** Values of `vals` at the rows whose id is `g`, in row order. */
  function GroupVals(vals: seq<real>, ids: seq<nat>, g: nat): seq<real>
    requires |vals| == |ids|
  {
    if vals == [] then
      []
    else
      (if ids[0] == g then [vals[0]] else []) + GroupVals(vals[1..], ids[1..], g)
  }

  /** The values of group `g` are exactly the values at the rows with id `g`. */
  lemma {:induction false} GroupValsMembers(vals: seq<real>, ids: seq<nat>, g: nat)
    requires |vals| == |ids|
    ensures forall x :: x in GroupVals(vals, ids, g) ==>
      exists i :: 0 <= i < |vals| && ids[i] == g && vals[i] == x
    ensures forall i :: 0 <= i < |vals| && ids[i] == g ==> vals[i] in GroupVals(vals, ids, g)
  {
    if vals != [] {
      GroupValsMembers(vals[1..], ids[1..], g);
      assert forall i :: 1 <= i < |vals| ==> vals[i] == vals[1..][i - 1] && ids[i] == ids[1..][i - 1];
    }
  }

  /** NaN-propagating addition of two optional depths. */
  function AddOpt(a: Option<real>, b: Option<real>): (r: Option<real>)
    ensures r.Some? <==> a.Some? && b.Some?
    ensures r.Some? ==> r.value == a.value + b.value
  {
    if a.Some? && b.Some? then Some(a.value + b.value) else None
  }

  /** `CAL 10-100 = ATM 10-30 + ATM 30-100`, `CAL 30-300 = ATM 30-100 + ATM 100-300`. */
  function Combine(b: Bands): (c: Channels)
    ensures c.atm300_1000 == b.atm300_1000
    ensures c.cal10_100.Some? <==> b.atm10_30.Some? && b.atm30_100.Some?
    ensures c.cal30_300.Some? <==> b.atm30_100.Some? && b.atm100_300.Some?
    ensures c.cal10_100.Some? ==> c.cal10_100.value == b.atm10_30.value + b.atm30_100.value
    ensures c.cal30_300.Some? ==> c.cal30_300.value == b.atm30_100.value + b.atm100_300.value
  {
    Channels(AddOpt(b.atm10_30, b.atm30_100), AddOpt(b.atm30_100, b.atm100_300), b.atm300_1000)
  }

  function Radii(kept: seq<Measurement>): (r: seq<real>)
    requires forall i :: 0 <= i < |kept| ==> kept[i].radius.Some?
    ensures |r| == |kept|
    ensures forall i :: 0 <= i < |kept| ==> r[i] == kept[i].radius.value
  {
    seq(|kept|, i requires 0 <= i < |kept| => kept[i].radius.value)
  }

  function Vons(kept: seq<Measurement>): (r: seq<real>)
    ensures |r| == |kept| && forall i :: 0 <= i < |kept| ==> r[i] == kept[i].von
  {
    seq(|kept|, i requires 0 <= i < |kept| => kept[i].von)
  }

  function Biss(kept: seq<Measurement>): (r: seq<real>)
    ensures |r| == |kept| && forall i :: 0 <= i < |kept| ==> r[i] == kept[i].bis
  {
    seq(|kept|, i requires 0 <= i < |kept| => kept[i].bis)
  }

  /** The row `i` of the grouped frame: group id, combined channels, and the
      group's `min(von)`, `max(bis)` and mean radius broadcast to the row. */
  function GroupedRow(kept: seq<Measurement>, radii: seq<real>, ids: seq<nat>, i: nat): CurveRecord
    requires |radii| == |kept| == |ids| && i < |kept|
  {
    var g := ids[i];
    GroupValsMembers(Vons(kept), ids, g);
    GroupValsMembers(Biss(kept), ids, g);
    GroupValsMembers(radii, ids, g);
    CurveRecord(
      kept[i], g, Combine(kept[i].left), Combine(kept[i].right),
      SeqMin(GroupVals(Vons(kept), ids, g)),
      SeqMax(GroupVals(Biss(kept), ids, g)),
      Mean(GroupVals(radii, ids, g)),
      kept[i].bis - kept[i].von)
  }

  /** Every kept row has a radius (the filter drops the others). */
  predicate HasRadii(kept: seq<Measurement>)
  {
    forall i :: 0 <= i < |kept| ==> kept[i].radius.Some?
  }

  /** The columns `fun_groupe` adds to the filtered frame. */
  function Grouped(kept: seq<Measurement>): (r: seq<CurveRecord>)
    requires HasRadii(kept)
    ensures |r| == |kept|
    ensures forall i :: 0 <= i < |kept| ==> r[i].m == kept[i] && r[i].groupe == GroupIds(Radii(kept))[i]
    ensures Consecutive(RecordIds(r))
  {
    var radii := Radii(kept);
    var ids := GroupIds(radii);
    var r := seq(|kept|, i requires 0 <= i < |kept| => GroupedRow(kept, radii, ids, i));
    assert RecordIds(r) == ids;
    GroupIdsConsecutive(radii);
    r
  }

  /** Row `i` of the grouped frame: the kept row with its id, its combined
      channels and its length `bis - von`; `rayon_courbe` is the row's radius
      (the mean of a group whose radii are all equal); `km_debut` is the
      least `von` and `km_fin` the greatest `bis` over the rows with the same
      id. */
  lemma GroupedAt(kept: seq<Measurement>, i: nat)
    requires HasRadii(kept) && i < |kept|
    ensures var r := Grouped(kept)[i];
      var ids := GroupIds(Radii(kept));
      r.m == kept[i] && r.groupe == ids[i] &&
      r.left == Combine(kept[i].left) && r.right == Combine(kept[i].right) &&
      r.long == kept[i].bis - kept[i].von &&
      kept[i].radius == Some(r.rayonCourbe) &&
      (forall j :: 0 <= j < |kept| && ids[j] == ids[i] ==>
         r.kmDebut <= kept[j].von && kept[j].bis <= r.kmFin) &&
      (exists j :: 0 <= j < |kept| && ids[j] == ids[i] && kept[j].von == r.kmDebut) &&
      (exists j :: 0 <= j < |kept| && ids[j] == ids[i] && kept[j].bis == r.kmFin)
  {
    GroupedChannels(kept, i);
    GroupedRadius(kept, i);
    GroupedBounds(kept, i);
  }

  /** The combined channels and the length of row `i`. */
  lemma GroupedChannels(kept: seq<Measurement>, i: nat)
    requires HasRadii(kept) && i < |kept|
    ensures var r := Grouped(kept)[i];
      r.left == Combine(kept[i].left) && r.right == Combine(kept[i].right) &&
      r.long == kept[i].bis - kept[i].von
  {
    assert Grouped(kept)[i] == GroupedRow(kept, Radii(kept), GroupIds(Radii(kept)), i);
  }

  /** `rayon_courbe`, the mean radius of the group, is the row's own radius. */
  lemma GroupedRadius(kept: seq<Measurement>, i: nat)
    requires HasRadii(kept) && i < |kept|
    ensures kept[i].radius == Some(Grouped(kept)[i].rayonCourbe)
  {
    var radii := Radii(kept);
    var ids := GroupIds(radii);
    var g := ids[i];
    assert Grouped(kept)[i] == GroupedRow(kept, radii, ids, i);
    var rs := GroupVals(radii, ids, g);
    GroupValsMembers(radii, ids, g);
    forall x | x in rs
      ensures x == radii[i]
    {
      var j :| 0 <= j < |radii| && ids[j] == g && radii[j] == x;
      SameGroupSameRadius(radii, i, j);
    }
    MeanOfConstant(rs, radii[i]);
  }

  /** `km_debut` is the least `von` and `km_fin` the greatest `bis` over the
      rows with the same id, each attained by such a row. */
  lemma GroupedBounds(kept: seq<Measurement>, i: nat)
    requires HasRadii(kept) && i < |kept|
    ensures var r := Grouped(kept)[i];
      var ids := GroupIds(Radii(kept));
      (forall j :: 0 <= j < |kept| && ids[j] == ids[i] ==>
         r.kmDebut <= kept[j].von && kept[j].bis <= r.kmFin) &&
      (exists j :: 0 <= j < |kept| && ids[j] == ids[i] && kept[j].von == r.kmDebut) &&
      (exists j :: 0 <= j < |kept| && ids[j] == ids[i] && kept[j].bis == r.kmFin)
  {
    var ids := GroupIds(Radii(kept));
    var g := ids[i];
    var r := Grouped(kept)[i];
    assert r == GroupedRow(kept, Radii(kept), ids, i);
    GroupValsMembers(Vons(kept), ids, g);
    GroupValsMembers(Biss(kept), ids, g);
    assert r.kmDebut == SeqMin(GroupVals(Vons(kept), ids, g));
    assert r.kmFin == SeqMax(GroupVals(Biss(kept), ids, g));
    forall j | 0 <= j < |kept| && ids[j] == g
      ensures r.kmDebut <= kept[j].von && kept[j].bis <= r.kmFin
    {
      assert Vons(kept)[j] in GroupVals(Vons(kept), ids, g);
      assert Biss(kept)[j] in GroupVals(Biss(kept), ids, g);
    }
    var a :| 0 <= a < |kept| && ids[a] == g && Vons(kept)[a] == r.kmDebut;
    var b :| 0 <= b < |kept| && ids[b] == g && Biss(kept)[b] == r.kmFin;
  }

  /** `fun_groupe`: filter, then group ids, combined channels, group bounds. */
  function FunGroupe(ms: seq<Measurement>, line: string, rMin: real, rMax: real): (r: seq<CurveRecord>)
    ensures |r| == |Filter(ms, line, rMin, rMax)|
    ensures forall i :: 0 <= i < |r| ==>
      r[i].m == Filter(ms, line, rMin, rMax)[i] && Kept(r[i].m, line, rMin, rMax)
    ensures |r| > 0 ==> r[0].groupe == 1
    ensures forall i :: 0 < i < |r| ==> RecordStep(r, i)
    ensures forall i :: 0 <= i < |r| ==>
      r[i].left == Combine(r[i].m.left) && r[i].right == Combine(r[i].m.right) &&
      r[i].long == r[i].m.bis - r[i].m.von && r[i].m.radius == Some(r[i].rayonCourbe)
  {
    var kept := Filter(ms, line, rMin, rMax);
    var r := Grouped(kept);
    GroupedIds(kept);
    assert forall i :: 0 < i < |r| ==> RecordStep(r, i);
    assert forall i :: 0 <= i < |r| ==>
      r[i].left == Combine(r[i].m.left) && r[i].right == Combine(r[i].m.right) &&
      r[i].long == r[i].m.bis - r[i].m.von && r[i].m.radius == Some(r[i].rayonCourbe) by {
      forall i | 0 <= i < |r|
        ensures r[i].left == Combine(r[i].m.left) && r[i].right == Combine(r[i].m.right)
        ensures r[i].long == r[i].m.bis - r[i].m.von && r[i].m.radius == Some(r[i].rayonCourbe)
      {
        GroupedChannels(kept, i);
        GroupedRadius(kept, i);
      }
    }
    r
  }

  /** The id of grouped row `i` is the previous one, plus 1 when the radius
      changes. */
  predicate RecordStep(r: seq<CurveRecord>, i: nat)
    requires 0 < i < |r|
  {
    r[i].groupe == r[i - 1].groupe + (if r[i].m.radius != r[i - 1].m.radius then 1 else 0)
  }

  /** Two kept rows `ms[a]` and `ms[b]` with only dropped rows between them
      are neighbours in the grouped frame, and they share an id exactly when
      their radii are equal: the dropped rows do not split a run. */
  lemma KeptNeighboursIds(ms: seq<Measurement>, line: string, rMin: real, rMax: real, a: nat, b: nat)
    requires a < b < |ms| && Kept(ms[a], line, rMin, rMax) && Kept(ms[b], line, rMin, rMax)
    requires forall k :: a < k < b ==> !Kept(ms[k], line, rMin, rMax)
    ensures var p := |Filter(ms[..a], line, rMin, rMax)|;
      var r := FunGroupe(ms, line, rMin, rMax);
      p + 1 < |r| && r[p].m == ms[a] && r[p + 1].m == ms[b] &&
      r[p + 1].groupe == r[p].groupe + (if ms[b].radius != ms[a].radius then 1 else 0)
  {
    var p := |Filter(ms[..a], line, rMin, rMax)|;
    FilterAdjacent(ms, line, rMin, rMax, a, b);
    var r := FunGroupe(ms, line, rMin, rMax);
    assert RecordStep(r, p + 1);
  }

  /** Kept rows with only dropped rows between them are adjacent in the
      filtered frame. */
  lemma FilterAdjacent(ms: seq<Measurement>, line: string, rMin: real, rMax: real, a: nat, b: nat)
    requires a < b < |ms| && Kept(ms[a], line, rMin, rMax) && Kept(ms[b], line, rMin, rMax)
    requires forall k :: a < k < b ==> !Kept(ms[k], line, rMin, rMax)
    ensures var p := |Filter(ms[..a], line, rMin, rMax)|;
      var f := Filter(ms, line, rMin, rMax);
      p + 1 < |f| && f[p] == ms[a] && f[p + 1] == ms[b]
  {
    var p := |Filter(ms[..a], line, rMin, rMax)|;
    FilterPosition(ms, line, rMin, rMax, a);
    FilterPosition(ms, line, rMin, rMax, b);
    assert ms[..b] == ms[..a] + [ms[a]] + ms[a + 1..b];
    FilterAppend(ms[..a] + [ms[a]], ms[a + 1..b], line, rMin, rMax);
    FilterAppend(ms[..a], [ms[a]], line, rMin, rMax);
    FilterNone(ms[a + 1..b], line, rMin, rMax);
    assert Filter([ms[a]], line, rMin, rMax) == [ms[a]];
    assert |Filter(ms[..b], line, rMin, rMax)| == p + 1;
  }

  function RecordIds(recs: seq<CurveRecord>): (ids: seq<nat>)
    ensures |ids| == |recs| && forall i :: 0 <= i < |recs| ==> ids[i] == recs[i].groupe
  {
    seq(|recs|, i requires 0 <= i < |recs| => recs[i].groupe)
  }

  /** Ids of the grouped frame start at 1 and grow by exactly 1 where the
      radius changes from the previous KEPT row, and stay the same otherwise;
      so they are consecutive. */
  lemma GroupedIds(kept: seq<Measurement>)
    requires HasRadii(kept)
    ensures var r := Grouped(kept);
      (|r| > 0 ==> r[0].groupe == 1) &&
      (forall i :: 0 < i < |r| ==>
        r[i].groupe == r[i - 1].groupe + (if r[i].m.radius != r[i - 1].m.radius then 1 else 0))
  {
    var radii := Radii(kept);
    var ids := GroupIds(radii);
    var r := Grouped(kept);
    forall i | 0 < i < |r|
      ensures r[i].groupe == r[i - 1].groupe + (if r[i].m.radius != r[i - 1].m.radius then 1 else 0)
    {
      assert IdStep(radii, ids, i);
      assert r[i].m.radius == Some(radii[i]) && r[i - 1].m.radius == Some(radii[i - 1]);
    }
  }

  /** Rows with equal ids have equal radii. */
  lemma GroupedSameRadius(kept: seq<Measurement>, i: nat, j: nat)
    requires HasRadii(kept) && i < |kept| && j < |kept|
    requires Grouped(kept)[i].groupe == Grouped(kept)[j].groupe
    ensures kept[i].radius == kept[j].radius
  {
    SameGroupSameRadius(Radii(kept), i, j);
  }

  /** Every row of a group carries the group's radius as `rayon_courbe`; the
      group's `km_debut` is at most the row's `von` and its `km_fin` at least
      the row's `bis`; and both bounds are attained by a row of the group. */
  lemma GroupedShape(kept: seq<Measurement>, i: nat)
    requires HasRadii(kept) && i < |kept|
    ensures var r := Grouped(kept);
      kept[i].radius == Some(r[i].rayonCourbe) &&
      (forall j :: 0 <= j < |r| && r[j].groupe == r[i].groupe ==>
         r[i].kmDebut <= kept[j].von && kept[j].bis <= r[i].kmFin &&
         r[j].kmDebut == r[i].kmDebut && r[j].kmFin == r[i].kmFin &&
         r[j].rayonCourbe == r[i].rayonCourbe) &&
      (exists j :: 0 <= j < |r| && r[j].groupe == r[i].groupe && kept[j].von == r[i].kmDebut) &&
      (exists j :: 0 <= j < |r| && r[j].groupe == r[i].groupe && kept[j].bis == r[i].kmFin)
  {
    var radii := Radii(kept);
    var ids := GroupIds(radii);
    var r := Grouped(kept);
    GroupedRadius(kept, i);
    GroupedBounds(kept, i);
    var a :| 0 <= a < |kept| && ids[a] == ids[i] && kept[a].von == r[i].kmDebut;
    var b :| 0 <= b < |kept| && ids[b] == ids[i] && kept[b].bis == r[i].kmFin;
    forall j | 0 <= j < |r| && r[j].groupe == r[i].groupe
      ensures r[j].kmDebut == r[i].kmDebut && r[j].kmFin == r[i].kmFin
      ensures r[j].rayonCourbe == r[i].rayonCourbe
    {
      GroupedUniform(kept, i, j);
    }
    assert r[a].groupe == ids[i] && r[b].groupe == ids[i];
  }

  /** Two rows with the same id carry the same group bounds and radius. */
  lemma GroupedUniform(kept: seq<Measurement>, i: nat, j: nat)
    requires HasRadii(kept) && i < |kept| && j < |kept|
    requires Grouped(kept)[i].groupe == Grouped(kept)[j].groupe
    ensures var r := Grouped(kept);
      r[j].kmDebut == r[i].kmDebut && r[j].kmFin == r[i].kmFin && r[j].rayonCourbe == r[i].rayonCourbe
  {
    var radii := Radii(kept);
    var ids := GroupIds(radii);
    assert Grouped(kept)[i] == GroupedRow(kept, radii, ids, i);
    assert Grouped(kept)[j] == GroupedRow(kept, radii, ids, j);
  }

  // ---------------------------------------------------------------------
  // output_riffel

  /** Median, skewness and kurtosis estimators of pandas and scipy. They are
      not modelled: only the guard around skewness is. */
  datatype Estimators = Estimators(
    median: seq<real> -> real,
    skew: seq<real> -> real,
    kurtosis: seq<real> -> real)

  datatype ChannelStats = ChannelStats(median: real, mean: real, skewness: real, kurtosis: real)

  datatype SideStats = SideStats(
    cal10_100: Option<ChannelStats>,
    cal30_300: Option<ChannelStats>,
    atm300_1000: Option<ChannelStats>)

  /** One row of the per-curve table. */
  datatype CurveStats = CurveStats(
    groupe: nat,
    kmDebut: real,
    kmFin: real,
    rayon: real,
    length: real,
    left: SideStats,
    right: SideStats,
    maxL: Option<real>,
    maxR: Option<real>,
    max: Option<real>,
    reserveL: Option<real>,
    reserveR: Option<real>,
    reserveMin: Option<real>)

  function ChannelOf(c: Channels, ch: Channel): Option<real>
  {
    match ch
    case Cal10_100 => c.cal10_100
    case Cal30_300 => c.cal30_300
    case Atm300_1000 => c.atm300_1000
  }

  function SideOf(rec: CurveRecord, side: Side): Channels
  {
    if side == Left then rec.left else rec.right
  }

  /** The non-missing values of one channel in group `g`, in row order
      (`dropna(subset=...)` then `groupby('groupe')`). */
  function ChannelValues(recs: seq<CurveRecord>, g: nat, side: Side, ch: Channel): seq<real>
  {
    if recs == [] then
      []
    else
      var v := ChannelOf(SideOf(recs[0], side), ch);
      (if recs[0].groupe == g && v.Some? then [v.value] else []) + ChannelValues(recs[1..], g, side, ch)
  }

  /** The values of a channel in group `g` are exactly the present values of
      that channel on the rows with id `g`. */
  lemma {:induction false} ChannelValuesMembers(recs: seq<CurveRecord>, g: nat, side: Side, ch: Channel)
    ensures forall x :: x in ChannelValues(recs, g, side, ch) <==>
      exists i :: 0 <= i < |recs| && recs[i].groupe == g && ChannelOf(SideOf(recs[i], side), ch) == Some(x)
  {
    if recs != [] {
      ChannelValuesMembers(recs[1..], g, side, ch);
      assert forall i :: 1 <= i < |recs| ==> recs[i] == recs[1..][i - 1];
    }
  }

  /** Statistics of one channel of one group; a group without any value for
      the channel is absent from that channel's series. */
  function StatsOf(xs: seq<real>, est: Estimators): (r: Option<ChannelStats>)
    ensures r.None? <==> xs == []
    ensures r.Some? ==> r.value.mean == Mean(xs) && r.value.median == est.median(xs)
    ensures r.Some? && (|xs| < 2 || AllEqual(xs)) ==> r.value.skewness == 0.0
    ensures r.Some? ==> r.value.skewness == SafeSkew(xs, est.skew) && r.value.kurtosis == est.kurtosis(xs)
  {
    if xs == [] then None
    else Some(ChannelStats(est.median(xs), Mean(xs), SafeSkew(xs, est.skew), est.kurtosis(xs)))
  }

  /** A channel that reads the same value `c` on every row of a group has
      mean `c` and skewness 0, whatever the estimators. */
  lemma StatsOfConstant(xs: seq<real>, c: real, est: Estimators)
    requires |xs| > 0 && forall x :: x in xs ==> x == c
    ensures StatsOf(xs, est).Some?
    ensures StatsOf(xs, est).value.mean == c && StatsOf(xs, est).value.skewness == 0.0
  {
    MeanOfConstant(xs, c);
    assert AllEqual(xs) by {
      forall i | 0 <= i < |xs|
        ensures xs[i] == xs[0]
      {
        assert xs[i] in xs && xs[0] in xs;
      }
    }
  }

  function SideStatsOf(recs: seq<CurveRecord>, g: nat, side: Side, est: Estimators): SideStats
  {
    SideStats(
      StatsOf(ChannelValues(recs, g, side, Cal10_100), est),
      StatsOf(ChannelValues(recs, g, side, Cal30_300), est),
      StatsOf(ChannelValues(recs, g, side, Atm300_1000), est))
  }

  function MedianOf(s: Option<ChannelStats>): Option<real>
  {
    if s.Some? then Some(s.value.median) else None
  }

  /** Row-wise `max(axis=1)` of pandas: missing values are skipped, and the
      result is missing only when every value is. */
  function MaxOpt(a: Option<real>, b: Option<real>): (r: Option<real>)
    ensures r.None? <==> a.None? && b.None?
    ensures a.Some? ==> r.Some? && a.value <= r.value
    ensures b.Some? ==> r.Some? && b.value <= r.value
    ensures r == a || r == b
  {
    if a.None? then b
    else if b.None? then a
    else Some(MaxR(a.value, b.value))
  }

  /** Row-wise `min(axis=1)`, skipping missing values. */
  function MinOpt(a: Option<real>, b: Option<real>): (r: Option<real>)
    ensures r.None? <==> a.None? && b.None?
    ensures a.Some? ==> r.Some? && r.value <= a.value
    ensures b.Some? ==> r.Some? && r.value <= b.value
    ensures r == a || r == b
  {
    if a.None? then b
    else if b.None? then a
    else Some(MinR(a.value, b.value))
  }

  /** `gw - x`, missing when `x` is. */
  function SubFrom(gw: real, a: Option<real>): Option<real>
  {
    if a.Some? then Some(gw - a.value) else None
  }

  /** Worst medians and wear margins of one curve (`max_l`, `max_r`, `max`,
      `reserve_usure_l`, `reserve_usure_r`, `reserve_usure_min`). */
  datatype Margins = Margins(
    maxL: Option<real>,
    maxR: Option<real>,
    max: Option<real>,
    reserveL: Option<real>,
    reserveR: Option<real>,
    reserveMin: Option<real>)

  function WearMargins(left: SideStats, right: SideStats, gw: real): (w: Margins)
    ensures w.maxL.None? <==>
      left.cal10_100.None? && left.cal30_300.None? && left.atm300_1000.None?
    ensures w.maxR.None? <==>
      right.cal10_100.None? && right.cal30_300.None? && right.atm300_1000.None?
    ensures w.maxL == MedianOf(left.cal10_100) || w.maxL == MedianOf(left.cal30_300) ||
            w.maxL == MedianOf(left.atm300_1000)
    ensures w.maxR == MedianOf(right.cal10_100) || w.maxR == MedianOf(right.cal30_300) ||
            w.maxR == MedianOf(right.atm300_1000)
    ensures forall s :: s in [left.cal10_100, left.cal30_300, left.atm300_1000] && s.Some? ==>
      w.maxL.Some? && s.value.median <= w.maxL.value
    ensures forall s :: s in [right.cal10_100, right.cal30_300, right.atm300_1000] && s.Some? ==>
      w.maxR.Some? && s.value.median <= w.maxR.value
    ensures w.max == MaxOpt(w.maxL, w.maxR)
    ensures w.reserveL == SubFrom(gw, w.maxL) && w.reserveR == SubFrom(gw, w.maxR)
    ensures w.reserveMin == SubFrom(gw, w.max)
    ensures w.reserveMin == MinOpt(w.reserveL, w.reserveR)
  {
    var maxL := MaxOpt(MaxOpt(MedianOf(left.cal10_100), MedianOf(left.cal30_300)), MedianOf(left.atm300_1000));
    var maxR := MaxOpt(MaxOpt(MedianOf(right.cal10_100), MedianOf(right.cal30_300)), MedianOf(right.atm300_1000));
    var reserveL := SubFrom(gw, maxL);
    var reserveR := SubFrom(gw, maxR);
    Margins(maxL, maxR, MaxOpt(maxR, maxL), reserveL, reserveR, MinOpt(reserveL, reserveR))
  }

  function KmDebuts(recs: seq<CurveRecord>): (r: seq<real>)
    ensures |r| == |recs| && forall i :: 0 <= i < |recs| ==> r[i] == recs[i].kmDebut
  {
    seq(|recs|, i requires 0 <= i < |recs| => recs[i].kmDebut)
  }

  function KmFins(recs: seq<CurveRecord>): (r: seq<real>)
    ensures |r| == |recs| && forall i :: 0 <= i < |recs| ==> r[i] == recs[i].kmFin
  {
    seq(|recs|, i requires 0 <= i < |recs| => recs[i].kmFin)
  }

  function Rayons(recs: seq<CurveRecord>): (r: seq<real>)
    ensures |r| == |recs| && forall i :: 0 <= i < |recs| ==> r[i] == recs[i].rayonCourbe
  {
    seq(|recs|, i requires 0 <= i < |recs| => recs[i].rayonCourbe)
  }

  /** `max()` over group `g` of one broadcast column of the frame. */
  function GroupMax(vals: seq<real>, ids: seq<nat>, g: nat): (r: real)
    requires |vals| == |ids| && Consecutive(ids) && |ids| > 0 && 1 <= g <= ids[|ids| - 1]
    ensures exists i :: 0 <= i < |ids| && ids[i] == g && vals[i] == r
    ensures forall i :: 0 <= i < |ids| && ids[i] == g ==> vals[i] <= r
  {
    ConsecutiveCovers(ids, g);
    GroupValsMembers(vals, ids, g);
    SeqMax(GroupVals(vals, ids, g))
  }

  /** The row of group `g`: `max()` of the broadcast bounds and radius over
      the group, the six channel statistics, the length and the margins. */
  function GroupStats(recs: seq<CurveRecord>, g: nat, est: Estimators, gw: real): (s: CurveStats)
    requires Consecutive(RecordIds(recs)) && 1 <= g <= LastId(recs)
    ensures s.groupe == g
    ensures s.length == s.kmFin - s.kmDebut
    ensures exists i :: 0 <= i < |recs| && recs[i].groupe == g && recs[i].kmDebut == s.kmDebut
    ensures exists i :: 0 <= i < |recs| && recs[i].groupe == g && recs[i].kmFin == s.kmFin
    ensures exists i :: 0 <= i < |recs| && recs[i].groupe == g && recs[i].rayonCourbe == s.rayon
    ensures s.reserveMin == SubFrom(gw, s.max)
  {
    var ids := RecordIds(recs);
    var kmDebut := GroupMax(KmDebuts(recs), ids, g);
    var kmFin := GroupMax(KmFins(recs), ids, g);
    var rayon := GroupMax(Rayons(recs), ids, g);
    var left := SideStatsOf(recs, g, Left, est);
    var right := SideStatsOf(recs, g, Right, est);
    var w := WearMargins(left, right, gw);
    CurveStats(g, kmDebut, kmFin, rayon, kmFin - kmDebut, left, right,
               w.maxL, w.maxR, w.max, w.reserveL, w.reserveR, w.reserveMin)
  }

  /** The fields of a curve row: the bounds and radius are the group maxima
      of the broadcast columns, the two sides carry the statistics of the
      group's channels, and the six margin columns are the wear margins of
      those statistics. */
  lemma GroupStatsFields(recs: seq<CurveRecord>, g: nat, est: Estimators, gw: real)
    requires Consecutive(RecordIds(recs)) && 1 <= g <= LastId(recs)
    ensures var s := GroupStats(recs, g, est, gw);
      s.kmDebut == GroupMax(KmDebuts(recs), RecordIds(recs), g) &&
      s.kmFin == GroupMax(KmFins(recs), RecordIds(recs), g) &&
      s.rayon == GroupMax(Rayons(recs), RecordIds(recs), g) &&
      s.left == SideStatsOf(recs, g, Left, est) && s.right == SideStatsOf(recs, g, Right, est) &&
      Margins(s.maxL, s.maxR, s.max, s.reserveL, s.reserveR, s.reserveMin) == WearMargins(s.left, s.right, gw)
  {
  }

  /** The id of the last row: with consecutive ids, the number of groups. */
  function LastId(recs: seq<CurveRecord>): nat
  {
    if recs == [] then 0 else recs[|recs| - 1].groupe
  }

  /** `output_riffel`: one row per group id, in ascending id order. */
  function OutputRiffel(recs: seq<CurveRecord>, est: Estimators, gw: real): (r: seq<CurveStats>)
    requires Consecutive(RecordIds(recs))
    ensures |r| == LastId(recs)
    ensures forall k :: 0 <= k < |r| ==> r[k] == GroupStats(recs, k + 1, est, gw)
  {
    seq(LastId(recs), k requires 0 <= k < LastId(recs) => GroupStats(recs, k + 1, est, gw))
  }

  /** Every row of the grouped frame carries an id between 1 and the last
      id, i.e. it names a row of the curve table. */
  lemma GroupedIdInRange(kept: seq<Measurement>, i: nat)
    requires HasRadii(kept) && i < |kept|
    ensures 1 <= Grouped(kept)[i].groupe <= LastId(Grouped(kept))
  {
    var radii := Radii(kept);
    var ids := GroupIds(radii);
    GroupIdsRun(radii, 0, i);
    GroupIdsRun(radii, i, |kept| - 1);
    assert Grouped(kept)[i].groupe == ids[i];
    assert Grouped(kept)[|kept| - 1].groupe == ids[|kept| - 1];
  }

  /** Where the broadcast bounds and radius are the same on every row of a
      group, the group's row of the table takes exactly those values. */
  lemma UniformGroupStats(recs: seq<CurveRecord>, g: nat, est: Estimators, gw: real, i: nat)
    requires Consecutive(RecordIds(recs)) && 1 <= g <= LastId(recs)
    requires i < |recs| && recs[i].groupe == g
    requires forall j :: 0 <= j < |recs| && recs[j].groupe == g ==>
      recs[j].kmDebut == recs[i].kmDebut && recs[j].kmFin == recs[i].kmFin &&
      recs[j].rayonCourbe == recs[i].rayonCourbe
    ensures var s := GroupStats(recs, g, est, gw);
      s.kmDebut == recs[i].kmDebut && s.kmFin == recs[i].kmFin && s.rayon == recs[i].rayonCourbe
  {
    var s := GroupStats(recs, g, est, gw);
    var a :| 0 <= a < |recs| && recs[a].groupe == g && recs[a].kmDebut == s.kmDebut;
    var b :| 0 <= b < |recs| && recs[b].groupe == g && recs[b].kmFin == s.kmFin;
    var c :| 0 <= c < |recs| && recs[c].groupe == g && recs[c].rayonCourbe == s.rayon;
  }

  /** For the frame `fun_groupe` builds, each row of `output_riffel` spans
      every record of its group and carries the group's radius. */
  lemma CurveTableCoversGroup(kept: seq<Measurement>, est: Estimators, gw: real, i: nat)
    requires HasRadii(kept) && i < |kept|
    ensures var recs := Grouped(kept);
      var table := OutputRiffel(recs, est, gw);
      1 <= recs[i].groupe <= |table| &&
      var s := table[recs[i].groupe - 1];
      s.kmDebut <= kept[i].von && kept[i].bis <= s.kmFin &&
      kept[i].radius == Some(s.rayon) && s.groupe == recs[i].groupe
  {
    var recs := Grouped(kept);
    GroupedIdInRange(kept, i);
    var g := recs[i].groupe;
    GroupedShape(kept, i);
    UniformGroupStats(recs, g, est, gw, i);
  }
}
