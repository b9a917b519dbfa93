/** The join of the curve table with the infrastructure segments: each curve
    takes the sleeper type, steel grade and rail profile of the longest
    infrastructure segment whose closed kilometre interval meets its own, and
    lists every segment that does. */
module IntervalJoin {
  import opened Common
  import CurveAnalysis
  import Superstructure

  /** A closed kilometre interval `[left, right]`. */
  datatype Interval = Interval(left: real, right: real)

  predicate WellFormed(iv: Interval)
  {
    iv.left <= iv.right
  }

  /** Overlap of two intervals closed on both sides: a shared end point
      counts. */
  predicate Overlaps(a: Interval, b: Interval)
  {
    a.left <= b.right && b.left <= a.right
  }

  /** `x` lies in the closed interval `iv`. */
  predicate InInterval(x: real, iv: Interval)
  {
    iv.left <= x <= iv.right
  }

  /** Two well-formed closed intervals overlap exactly when they share a
      point. */
  lemma OverlapsIffCommonPoint(a: Interval, b: Interval)
    requires WellFormed(a) && WellFormed(b)
    ensures Overlaps(a, b) <==> exists x :: InInterval(x, a) && InInterval(x, b)
  {
    if Overlaps(a, b) {
      var x := MaxR(a.left, b.left);
      assert InInterval(x, a) && InInterval(x, b);
    }
  }

  lemma OverlapsSymmetric(a: Interval, b: Interval)
    ensures Overlaps(a, b) <==> Overlaps(b, a)
  {
  }

  // ---------------------------------------------------------------------
  // Preparation of both tables

  /** An infrastructure row with its normalised bounds `pk_debut_corr` and
      `pk_fin_corr` (row-wise min and max skipping a missing value) and its
      renamed rail profile. */
  datatype Infra = Infra(seg: Superstructure.Segment, debut: Option<real>, fin: Option<real>)

  function Normalise(s: Superstructure.Segment): (r: Infra)
    ensures r.debut.Some? <==> s.kmStart.Some? || s.kmEnd.Some?
    ensures r.fin.Some? <==> r.debut.Some?
    ensures r.debut.Some? ==> r.debut.value <= r.fin.value
    ensures r.debut == s.kmStart || r.debut == s.kmEnd
    ensures r.fin == s.kmStart || r.fin == s.kmEnd
    ensures s.kmStart.Some? ==> r.debut.value <= s.kmStart.value <= r.fin.value
    ensures s.kmEnd.Some? ==> r.debut.value <= s.kmEnd.value <= r.fin.value
    ensures r.seg.typRail == Superstructure.RenameRail(s.typRail)
    ensures r.seg.typTrav == s.typTrav && r.seg.qualiteAcier == s.qualiteAcier
  {
    Infra(s.(typRail := Superstructure.RenameRail(s.typRail)),
          CurveAnalysis.MinOpt(s.kmStart, s.kmEnd),
          CurveAnalysis.MaxOpt(s.kmStart, s.kmEnd))
  }

  /** The closed interval of a row; missing when both raw bounds are. */
  function IntervalOf(i: Infra): Option<Interval>
  {
    if i.debut.Some? && i.fin.Some? then Some(Interval(i.debut.value, i.fin.value)) else None
  }

  /** `length`: the whole segment's length, never negative. */
  function Length(i: Infra): (r: Option<real>)
    ensures r.Some? <==> i.debut.Some? && i.fin.Some?
    ensures r.Some? ==> r.value == i.fin.value - i.debut.value
    ensures r.Some? && i.debut.value <= i.fin.value ==> r.value >= 0.0
  {
    if i.debut.Some? && i.fin.Some? then Some(i.fin.value - i.debut.value) else None
  }

  /** Curve bounds converted from metres to kilometres. */
  function ToKm(c: CurveAnalysis.CurveStats): CurveAnalysis.CurveStats
  {
    c.(kmDebut := c.kmDebut / 1000.0, kmFin := c.kmFin / 1000.0)
  }

  // ---------------------------------------------------------------------
  // Matching one curve

  /** Every infrastructure row has an interval. */
  predicate AllIntervals(infra: seq<Infra>)
  {
    forall k :: 0 <= k < |infra| ==> IntervalOf(infra[k]).Some?
  }

  /** The indices of the rows whose interval meets `ci`, in table order. */
  function MatchIndices(infra: seq<Infra>, ci: Interval): (r: seq<nat>)
    requires AllIntervals(infra)
    ensures forall p :: 0 <= p < |r| ==> r[p] < |infra| && Overlaps(IntervalOf(infra[r[p]]).value, ci)
    ensures forall k :: 0 <= k < |infra| && Overlaps(IntervalOf(infra[k]).value, ci) ==> k in r
    ensures forall p, q :: 0 <= p < q < |r| ==> r[p] < r[q]
  {
    if infra == [] then
      []
    else
      var n := |infra| - 1;
      var prev := MatchIndices(infra[..n], ci);
      assert forall k :: 0 <= k < n ==> infra[..n][k] == infra[k];
      prev + (if Overlaps(IntervalOf(infra[n]).value, ci) then [n] else [])
  }

  /** `idxmax`: the position of the first largest value. */
  function FirstMax(xs: seq<real>): (p: nat)
    requires |xs| > 0
    ensures p < |xs|
    ensures forall q :: 0 <= q < |xs| ==> xs[q] <= xs[p]
    ensures forall q :: 0 <= q < p ==> xs[q] < xs[p]
  {
    if |xs| == 1 then
      0
    else
      var n := |xs| - 1;
      var best := FirstMax(xs[..n]);
      assert forall q :: 0 <= q < n ==> xs[..n][q] == xs[q];
      if xs[n] > xs[best] then n else best
  }

  /** The lengths of the rows `idx`. */
  function LengthsAt(infra: seq<Infra>, idx: seq<nat>): (r: seq<real>)
    requires AllIntervals(infra)
    requires forall p :: 0 <= p < |idx| ==> idx[p] < |infra|
    ensures |r| == |idx|
    ensures forall p :: 0 <= p < |idx| ==> Length(infra[idx[p]]) == Some(r[p])
  {
    seq(|idx|, p requires 0 <= p < |idx| => Length(infra[idx[p]]).value)
  }

  /** The columns set on a curve row that meets at least one segment. */
  datatype Attribution = Attribution(
    traverse: Option<string>,
    acier: Option<string>,
    profilRail: Option<string>,
    param1: seq<Option<string>>,
    param2: seq<Option<string>>,
    intervalLeft: seq<real>,
    intervalRight: seq<real>,
    coord1: seq<Interval>)

  /** A curve row after the join; `None` stands for `param = None`. */
  datatype Joined = Joined(curve: CurveAnalysis.CurveStats, attribution: Option<Attribution>)

  datatype JoinError =
    | InvalidCurveInterval   // the curve's start lies after its end
    | MissingInfraInterval   // a segment without any bound has no interval

  /** The attribution built from the matching rows `idx` (in table order) and
      the dominant row `d`. */
  function AttributionOf(infra: seq<Infra>, idx: seq<nat>, d: nat): Attribution
    requires AllIntervals(infra) && d < |infra|
    requires forall p :: 0 <= p < |idx| ==> idx[p] < |infra|
  {
    Attribution(
      infra[d].seg.typTrav,
      infra[d].seg.qualiteAcier,
      infra[d].seg.typRail,
      seq(|idx|, p requires 0 <= p < |idx| => infra[idx[p]].seg.typTrav),
      seq(|idx|, p requires 0 <= p < |idx| => infra[idx[p]].seg.qualiteAcier),
      seq(|idx|, p requires 0 <= p < |idx| => IntervalOf(infra[idx[p]]).value.left),
      seq(|idx|, p requires 0 <= p < |idx| => IntervalOf(infra[idx[p]]).value.right),
      seq(|idx|, p requires 0 <= p < |idx| => IntervalOf(infra[idx[p]]).value))
  }

  /** `attribuer_parametres` for one curve row already in kilometres. */
  function AttribuerParametres(c: CurveAnalysis.CurveStats, infra: seq<Infra>): (r: Result<Joined, JoinError>)
    ensures c.kmDebut > c.kmFin ==> r == Err(InvalidCurveInterval)
    ensures c.kmDebut <= c.kmFin && !AllIntervals(infra) ==> r == Err(MissingInfraInterval)
    ensures r.Ok? ==> r.value.curve == c
    ensures r.Ok? ==> AllIntervals(infra)
    ensures r.Ok? ==> (r.value.attribution.None? <==>
      forall k :: 0 <= k < |infra| ==> !Overlaps(IntervalOf(infra[k]).value, Interval(c.kmDebut, c.kmFin)))
  {
    if c.kmDebut > c.kmFin then
      Err(InvalidCurveInterval)
    else if !AllIntervals(infra) then
      Err(MissingInfraInterval)
    else
      var ci := Interval(c.kmDebut, c.kmFin);
      var idx := MatchIndices(infra, ci);
      if idx == [] then
        Ok(Joined(c, None))
      else
        assert Overlaps(IntervalOf(infra[idx[0]]).value, ci);
        var d := idx[FirstMax(LengthsAt(infra, idx))];
        Ok(Joined(c, Some(AttributionOf(infra, idx, d))))
  }

  /** The five lists have one entry per matching row `idx`, in that order. */
  predicate ListsMatch(a: Attribution, infra: seq<Infra>, idx: seq<nat>)
    requires AllIntervals(infra)
    requires forall p :: 0 <= p < |idx| ==> idx[p] < |infra|
  {
    |a.param1| == |idx| && |a.param2| == |idx| && |a.intervalLeft| == |idx| &&
    |a.intervalRight| == |idx| && |a.coord1| == |idx| &&
    forall p :: 0 <= p < |idx| ==>
      a.param1[p] == infra[idx[p]].seg.typTrav &&
      a.param2[p] == infra[idx[p]].seg.qualiteAcier &&
      a.coord1[p] == IntervalOf(infra[idx[p]]).value &&
      a.intervalLeft[p] == a.coord1[p].left && a.intervalRight[p] == a.coord1[p].right
  }

  /** Position `d` of `idx` holds the longest row, and no earlier position
      holds one as long. */
  predicate DominantAt(infra: seq<Infra>, idx: seq<nat>, d: nat)
    requires AllIntervals(infra)
    requires forall p :: 0 <= p < |idx| ==> idx[p] < |infra|
  {
    d < |idx| &&
    (forall q :: 0 <= q < |idx| ==> Length(infra[idx[q]]).value <= Length(infra[idx[d]]).value) &&
    (forall q :: 0 <= q < d ==> Length(infra[idx[q]]).value < Length(infra[idx[d]]).value)
  }

  /** The three dominant columns all come from the dominant matching row. */
  predicate TakesDominant(a: Attribution, infra: seq<Infra>, idx: seq<nat>)
    requires AllIntervals(infra)
    requires forall p :: 0 <= p < |idx| ==> idx[p] < |infra|
  {
    exists d :: 0 <= d < |idx| && DominantAt(infra, idx, d) &&
      a.traverse == infra[idx[d]].seg.typTrav &&
      a.acier == infra[idx[d]].seg.qualiteAcier &&
      a.profilRail == infra[idx[d]].seg.typRail
  }

  /** Proof step only: unfolds `AttributionOf` once for its list columns. */
  lemma AttributionOfLists(infra: seq<Infra>, idx: seq<nat>, d: nat)
    requires AllIntervals(infra) && d < |infra|
    requires forall p :: 0 <= p < |idx| ==> idx[p] < |infra|
    ensures ListsMatch(AttributionOf(infra, idx, d), infra, idx)
  {
  }

  /** The attribution of a matched curve: the three dominant columns come from
      one matching row, the longest one and the first of the longest; the five
      lists have one entry per matching row, in table order. */
  lemma AttributionShape(c: CurveAnalysis.CurveStats, infra: seq<Infra>)
    requires AttribuerParametres(c, infra).Ok?
    requires AttribuerParametres(c, infra).value.attribution.Some?
    ensures AllIntervals(infra)
    ensures ListsMatch(AttribuerParametres(c, infra).value.attribution.value, infra,
                       MatchIndices(infra, Interval(c.kmDebut, c.kmFin)))
    ensures TakesDominant(AttribuerParametres(c, infra).value.attribution.value, infra,
                          MatchIndices(infra, Interval(c.kmDebut, c.kmFin)))
  {
    var idx := MatchIndices(infra, Interval(c.kmDebut, c.kmFin));
    var ls := LengthsAt(infra, idx);
    var d := FirstMax(ls);
    var a := AttribuerParametres(c, infra).value.attribution.value;
    assert a == AttributionOf(infra, idx, idx[d]);
    AttributionOfLists(infra, idx, idx[d]);
    assert forall q :: 0 <= q < |idx| ==> Length(infra[idx[q]]).value == ls[q];
    assert DominantAt(infra, idx, d);
  }

  // ---------------------------------------------------------------------
  // The whole table

  function NormaliseAll(segs: seq<Superstructure.Segment>): (r: seq<Infra>)
    ensures |r| == |segs| && forall k :: 0 <= k < |segs| ==> r[k] == Normalise(segs[k])
  {
    seq(|segs|, k requires 0 <= k < |segs| => Normalise(segs[k]))
  }

  function CurvesToKm(curves: seq<CurveAnalysis.CurveStats>): (r: seq<CurveAnalysis.CurveStats>)
    ensures |r| == |curves| && forall i :: 0 <= i < |curves| ==> r[i] == ToKm(curves[i])
  {
    seq(|curves|, i requires 0 <= i < |curves| => ToKm(curves[i]))
  }

  /** `df1.apply(attribuer_parametres, axis=1)` after both tables are
      prepared: one output row per curve, in order, unless some row raises,
      in which case the first such row's error ends the join. */
  function Jointure(curves: seq<CurveAnalysis.CurveStats>, segs: seq<Superstructure.Segment>): (r: Result<seq<Joined>, JoinError>)
    ensures r.Ok? <==> forall i :: 0 <= i < |curves| ==>
      AttribuerParametres(ToKm(curves[i]), NormaliseAll(segs)).Ok?
    ensures r.Ok? ==> |r.value| == |curves|
    ensures r.Ok? ==> forall i :: 0 <= i < |curves| ==>
      AttribuerParametres(ToKm(curves[i]), NormaliseAll(segs)) == Ok(r.value[i])
    ensures r.Ok? ==> forall i :: 0 <= i < |curves| ==> r.value[i].curve == ToKm(curves[i])
    ensures r.Err? ==> exists i :: (0 <= i < |curves| &&
      AttribuerParametres(ToKm(curves[i]), NormaliseAll(segs)) == Err(r.error) &&
      forall j :: 0 <= j < i ==> AttribuerParametres(ToKm(curves[j]), NormaliseAll(segs)).Ok?)
  {
    var infra := NormaliseAll(segs);
    var f := c => AttribuerParametres(c, infra);
    var xs := CurvesToKm(curves);
    var r := MapResult(xs, f);
    assert forall i :: 0 <= i < |curves| ==> f(xs[i]) == AttribuerParametres(ToKm(curves[i]), infra);
    r
  }
}
