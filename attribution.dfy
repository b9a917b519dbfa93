/** Cutting the recorded infrastructure segments by the curves of the curve
    table, classifying every piece by a standard-element code, looking up the
    code's yearly wear rate and deriving the years left before grinding. */
module Attribution {
  import opened Common
  import CurveAnalysis
  import Superstructure
  import IntervalJoin

  type Troncon = Superstructure.Troncon
  type CurveStats = CurveAnalysis.CurveStats

  // ---------------------------------------------------------------------
  // Intersection of segments and curves

  /** A piece of an infrastructure segment lying on one curve: the segment's
      attributes with narrowed bounds, plus the curve's radius and id. */
  datatype Piece = Piece(seg: Troncon, rayon: real, groupe: nat)

  /** The curve strictly overlaps the segment: touching ends do not count. */
  predicate Intersects(seg: Troncon, c: CurveStats)
  {
    c.kmFin > seg.kmStart && c.kmDebut < seg.kmEnd
  }

  /** The part of `seg` covered by the curve `c`. */
  function Cut(seg: Troncon, c: CurveStats): (p: Piece)
    requires Intersects(seg, c)
    ensures seg.kmStart <= p.seg.kmStart && c.kmDebut <= p.seg.kmStart
    ensures p.seg.kmEnd <= seg.kmEnd && p.seg.kmEnd <= c.kmFin
    ensures p.seg.kmStart < p.seg.kmEnd <== seg.kmStart < seg.kmEnd && c.kmDebut < c.kmFin
    ensures p.seg.kmStart <= p.seg.kmEnd <== seg.kmStart <= seg.kmEnd && c.kmDebut <= c.kmFin
    ensures p.seg.typTrav == seg.typTrav && p.seg.typRail == seg.typRail
    ensures p.seg.qualiteAcier == seg.qualiteAcier
    ensures p.rayon == c.rayon && p.groupe == c.groupe
  {
    Piece(seg.(kmStart := MaxR(c.kmDebut, seg.kmStart), kmEnd := MinR(c.kmFin, seg.kmEnd)),
          c.rayon, c.groupe)
  }

  /** The pieces of one segment, one per intersecting curve in table order. */
  function PiecesOf(seg: Troncon, curves: seq<CurveStats>): seq<Piece>
  {
    if curves == [] then []
    else
      var c := curves[|curves| - 1];
      PiecesOf(seg, curves[..|curves| - 1]) + (if Intersects(seg, c) then [Cut(seg, c)] else [])
  }

  /** All pieces: segment by segment, and within a segment curve by curve. */
  function IntersectAll(segs: seq<Troncon>, curves: seq<CurveStats>): seq<Piece>
  {
    if segs == [] then []
    else IntersectAll(segs[..|segs| - 1], curves) + PiecesOf(segs[|segs| - 1], curves)
  }

  /** The double loop that appends one piece per intersecting pair. */
  method Intersect(segs: seq<Troncon>, curves: seq<CurveStats>) returns (out: seq<Piece>)
    ensures out == IntersectAll(segs, curves)
  {
    out := [];
    for i := 0 to |segs|
      invariant out == IntersectAll(segs[..i], curves)
    {
      var seg := segs[i];
      assert segs[..i + 1][..i] == segs[..i];
      for j := 0 to |curves|
        invariant out == IntersectAll(segs[..i], curves) + PiecesOf(seg, curves[..j])
      {
        var c := curves[j];
        assert curves[..j + 1][..j] == curves[..j];
        if c.kmFin > seg.kmStart && c.kmDebut < seg.kmEnd {
          out := out + [Cut(seg, c)];
        }
      }
      assert curves[..|curves|] == curves;
    }
    assert segs[..|segs|] == segs;
  }

  /** A segment yields exactly the cuts by the curves that intersect it. */
  lemma {:induction false} PiecesOfMembers(seg: Troncon, curves: seq<CurveStats>)
    ensures |PiecesOf(seg, curves)| <= |curves|
    ensures forall p :: p in PiecesOf(seg, curves) <==>
      (exists j :: 0 <= j < |curves| && Intersects(seg, curves[j]) && p == Cut(seg, curves[j]))
  {
    if curves != [] {
      var init := curves[..|curves| - 1];
      PiecesOfMembers(seg, init);
      assert forall j :: 0 <= j < |init| ==> init[j] == curves[j];
    }
  }

  /** A segment that no curve intersects contributes nothing, and one that a
      curve intersects contributes something. */
  lemma PiecesOfEmpty(seg: Troncon, curves: seq<CurveStats>)
    ensures PiecesOf(seg, curves) == [] <==> forall j :: 0 <= j < |curves| ==> !Intersects(seg, curves[j])
  {
    PiecesOfMembers(seg, curves);
    if PiecesOf(seg, curves) == [] {
      forall j | 0 <= j < |curves|
        ensures !Intersects(seg, curves[j])
      {
        assert Intersects(seg, curves[j]) ==> Cut(seg, curves[j]) in PiecesOf(seg, curves);
      }
    } else {
      var p := PiecesOf(seg, curves)[0];
      assert p in PiecesOf(seg, curves);
    }
  }

  /** The pieces of a segment follow the curve table's order. */
  lemma {:induction false} PiecesOfAppend(seg: Troncon, a: seq<CurveStats>, b: seq<CurveStats>)
    ensures PiecesOf(seg, a + b) == PiecesOf(seg, a) + PiecesOf(seg, b)
    decreases |b|
  {
    if b == [] {
      assert a + b == a;
    } else {
      var bInit := b[..|b| - 1];
      PiecesOfAppend(seg, a, bInit);
      assert (a + b)[..|a + b| - 1] == a + bInit;
    }
  }

  /** The output follows the segment table's order: the pieces of earlier
      segments come first. */
  lemma {:induction false} IntersectAllAppend(a: seq<Troncon>, b: seq<Troncon>, curves: seq<CurveStats>)
    ensures IntersectAll(a + b, curves) == IntersectAll(a, curves) + IntersectAll(b, curves)
    decreases |b|
  {
    if b == [] {
      assert a + b == a;
    } else {
      var bInit, last := b[..|b| - 1], b[|b| - 1];
      IntersectAllAppend(a, bInit, curves);
      assert (a + b)[..|a + b| - 1] == a + bInit;
      assert (a + b)[|a + b| - 1] == last;
      calc {
        IntersectAll(a + b, curves);
        IntersectAll(a + bInit, curves) + PiecesOf(last, curves);
        IntersectAll(a, curves) + IntersectAll(bInit, curves) + PiecesOf(last, curves);
        IntersectAll(a, curves) + (IntersectAll(bInit, curves) + PiecesOf(last, curves));
      }
    }
  }

  /** A piece is in the output iff it is the cut of some segment by some
      curve that strictly overlaps it. */
  lemma {:induction false} IntersectAllMembers(segs: seq<Troncon>, curves: seq<CurveStats>)
    ensures forall p :: p in IntersectAll(segs, curves) <==>
      (exists i, j :: 0 <= i < |segs| && 0 <= j < |curves| &&
        Intersects(segs[i], curves[j]) && p == Cut(segs[i], curves[j]))
  {
    if segs != [] {
      var init := segs[..|segs| - 1];
      var last := segs[|segs| - 1];
      IntersectAllMembers(init, curves);
      PiecesOfMembers(last, curves);
      assert forall i :: 0 <= i < |init| ==> init[i] == segs[i];
      forall p | p in IntersectAll(segs, curves)
        ensures exists i, j :: (0 <= i < |segs| && 0 <= j < |curves| &&
          Intersects(segs[i], curves[j]) && p == Cut(segs[i], curves[j]))
      {
        if p !in IntersectAll(init, curves) {
          assert p in PiecesOf(last, curves);
          var j :| 0 <= j < |curves| && Intersects(last, curves[j]) && p == Cut(last, curves[j]);
          assert Intersects(segs[|segs| - 1], curves[j]);
        }
      }
      forall p | exists i, j :: (0 <= i < |segs| && 0 <= j < |curves| &&
          Intersects(segs[i], curves[j]) && p == Cut(segs[i], curves[j]))
        ensures p in IntersectAll(segs, curves)
      {
        var i, j :| 0 <= i < |segs| && 0 <= j < |curves| &&
          Intersects(segs[i], curves[j]) && p == Cut(segs[i], curves[j]);
        if i == |segs| - 1 {
          assert p in PiecesOf(last, curves);
        } else {
          assert init[i] == segs[i];
          assert p in IntersectAll(init, curves);
        }
      }
    }
  }

  // ---------------------------------------------------------------------
  // Standard-element code

  /** Python's `str()` of a cell: a missing value prints as "nan". */
  function Str(cell: Option<string>): string
  {
    if cell.None? then "nan" else cell.value
  }

  /** C: radius class, 1 for the widest curves down to 5 for the sharpest. */
  function RadiusDigit(rayon: Option<real>): (c: char)
    ensures c == 'F' <==> rayon.None?
    ensures c == '1' <==> rayon.Some? && rayon.value > 600.0
    ensures c == '2' <==> rayon.Some? && 300.0 < rayon.value <= 600.0
    ensures c == '3' <==> rayon.Some? && 120.0 < rayon.value <= 300.0
    ensures c == '4' <==> rayon.Some? && 80.0 < rayon.value <= 120.0
    ensures c == '5' <==> rayon.Some? && rayon.value <= 80.0
  {
    match rayon
    case None => 'F'
    case Some(r) =>
      if r > 600.0 then '1'
      else if 300.0 < r <= 600.0 then '2'
      else if 120.0 < r <= 300.0 then '3'
      else if 80.0 < r <= 120.0 then '4'
      else '5'
  }

  /** D: sleeper type. */
  function SleeperDigit(trav: Option<string>): (c: char)
    ensures c == '1' <==> trav == Some("Béton")
    ensures c == '3' <==> trav == Some("Bois")
    ensures c == '4' <==> trav != Some("Béton") && trav != Some("Bois") && Contains(Str(trav), "Acier")
    ensures c in "134F"
  {
    if trav == Some("Béton") then '1'
    else if trav == Some("Bois") then '3'
    else if Contains(Str(trav), "Acier") then '4'
    else 'F'
  }

  /** E: rail profile; "46 E1" is looked for before "54 E2". */
  function RailDigit(rail: Option<string>): (c: char)
    ensures c == '2' <==> Contains(Str(rail), "46 E1")
    ensures c == '1' <==> !Contains(Str(rail), "46 E1") && Contains(Str(rail), "54 E2")
    ensures c in "12E"
  {
    if Contains(Str(rail), "46 E1") then '2'
    else if Contains(Str(rail), "54 E2") then '1'
    else 'E'
  }

  /** F: steel grade. */
  function SteelDigit(acier: Option<string>): (c: char)
    ensures c == 'F' <==> acier.None?
    ensures c == '1' <==> acier == Some("R 260")
    ensures c == '2' <==> acier == Some("R 350 HT")
    ensures c in "123F"
  {
    match acier
    case None => 'F'
    case Some(q) => if q == "R 260" then '1' else if q == "R 350 HT" then '2' else '3'
  }

  /** The eight-character code ABCDEFGH with A = 3, B = 1 and G = H = 1. */
  function ElementCode(rayon: Option<real>, trav: Option<string>, rail: Option<string>,
                       acier: Option<string>): (code: string)
    ensures |code| == 8
    ensures code[0] == '3' && code[1] == '1' && code[6] == '1' && code[7] == '1'
    ensures code[2] == RadiusDigit(rayon) && code[3] == SleeperDigit(trav)
    ensures code[4] == RailDigit(rail) && code[5] == SteelDigit(acier)
  {
    ['3', '1', RadiusDigit(rayon), SleeperDigit(trav), RailDigit(rail), SteelDigit(acier), '1', '1']
  }

  /** A wider curve never gets a larger radius class. */
  lemma RadiusDigitAntitone(r1: real, r2: real)
    requires r1 <= r2
    ensures RadiusDigit(Some(r2)) <= RadiusDigit(Some(r1))
  {
  }

  /** The rail names the clean-up produces are both classified. */
  lemma RenamedRailsClassified()
    ensures RailDigit(Superstructure.RenameRail(Some("CFF I"))) == '2'
    ensures RailDigit(Superstructure.RenameRail(Some("CFF IV"))) == '1'
  {
    assert OccursAt("46 E1", "46 E1", 0);
    assert OccursAt("54 E2", "54 E2", 0);
    assert !Contains("54 E2", "46 E1") by {
      assert !OccursAt("54 E2", "46 E1", 0);
      assert ContainsFrom("54 E2", "46 E1", 1) == false;
    }
  }

  // ---------------------------------------------------------------------
  // Wear rate

  /** Yearly wear rate of the known standard elements (mm per year). */
  const FrequenceMapping: map<string, real> := map[
    "31112211" := 0.000, "31212211" := 0.000, "31312211" := 0.067, "31412211" := 0.100, "31512211" := 0.120,
    "31132211" := 0.000, "31232211" := 0.000, "31332211" := 0.100, "31432211" := 0.120, "31532211" := 0.120,
    "31142211" := 0.000, "31242211" := 0.000, "31342211" := 0.075, "31442211" := 0.100, "31542211" := 0.133,
    "31112111" := 0.000, "31212111" := 0.000, "31312111" := 0.133, "31412111" := 0.200, "31512111" := 0.240,
    "31132111" := 0.000, "31232111" := 0.000, "31332111" := 0.133, "31432111" := 0.200, "31532111" := 0.240,
    "31142111" := 0.000, "31242111" := 0.000, "31342111" := 0.100, "31442111" := 0.200, "31542111" := 0.250
  ]

  /** Rate used for a code the table does not list. */
  const DefaultFrequence: real := 0.15

  /** The table's rate for a known code, the default otherwise. */
  function Frequence(code: string): (f: real)
    ensures 0.0 <= f <= 0.25
    ensures code !in FrequenceMapping ==> f == DefaultFrequence
  {
    if code in FrequenceMapping then FrequenceMapping[code] else DefaultFrequence
  }

  /** The table read as a grid: no wear on the two widest radius classes,
      and otherwise a rate per sleeper type, steel grade and radius class. */
  function ListedRate(c: char, d: char, f: char): real
  {
    if c == '1' || c == '2' then 0.0
    else if f == '2' then
      (if d == '1' then (if c == '3' then 0.067 else if c == '4' then 0.100 else 0.120)
       else if d == '3' then (if c == '3' then 0.100 else 0.120)
       else (if c == '3' then 0.075 else if c == '4' then 0.100 else 0.133))
    else
      (if d == '4' then (if c == '3' then 0.100 else if c == '4' then 0.200 else 0.250)
       else (if c == '3' then 0.133 else if c == '4' then 0.200 else 0.240))
  }

  /** Proof step only: unfolds the table's keys for their length. */
  lemma KeyLength(code: string)
    requires code in FrequenceMapping
    ensures |code| == 8
  {
  }

  /** Proof step only: unfolds the table's keys for their fixed digits;
      every listed code is for 46 E1 rail (E = 2). */
  lemma KeyFixedDigits(code: string)
    requires code in FrequenceMapping
    ensures |code| == 8
    ensures code[0] == '3' && code[1] == '1' && code[4] == '2' && code[6] == '1' && code[7] == '1'
  {
    KeyLength(code);
  }

  /** Every listed code is 46 E1 rail (E = 2) on concrete, timber or steel
      sleepers with grade R 260 or R 350 HT. */
  lemma KeyDigits(code: string)
    requires code in FrequenceMapping
    ensures |code| == 8
    ensures code[0] == '3' && code[1] == '1' && code[4] == '2' && code[6] == '1' && code[7] == '1'
    ensures code[2] in "12345" && code[3] in "134" && code[5] in "12"
  {
    KeyFixedDigits(code);
  }

  /** Every listed rate is the grid's rate for the code's digits. */
  lemma KeyRate(code: string)
    requires code in FrequenceMapping
    ensures |code| == 8
    ensures FrequenceMapping[code] == ListedRate(code[2], code[3], code[5])
  {
    KeyLength(code);
  }

  /** Every combination of the grid is listed. */
  lemma GridListed(c: char, d: char, f: char)
    requires c in "12345" && d in "134" && f in "12"
    ensures ['3', '1', c, d, '2', f, '1', '1'] in FrequenceMapping
  {
  }

  /** Only 46 E1 rail on concrete, timber or steel sleepers with a known
      grade R 260 or R 350 HT is listed; every other piece of a curve gets
      the default rate. */
  lemma KnownCodes(rayon: real, trav: Option<string>, rail: Option<string>, acier: Option<string>)
    ensures ElementCode(Some(rayon), trav, rail, acier) in FrequenceMapping <==>
      RailDigit(rail) == '2' && SleeperDigit(trav) != 'F' &&
      (SteelDigit(acier) == '1' || SteelDigit(acier) == '2')
  {
    var code := ElementCode(Some(rayon), trav, rail, acier);
    if code in FrequenceMapping {
      KeyDigits(code);
    } else if RailDigit(rail) == '2' && SleeperDigit(trav) != 'F' &&
              (SteelDigit(acier) == '1' || SteelDigit(acier) == '2') {
      GridListed(RadiusDigit(Some(rayon)), SleeperDigit(trav), SteelDigit(acier));
    }
  }

  /** The rate of a piece of a curve, read off the grid. */
  lemma FrequenceOnGrid(rayon: real, trav: Option<string>, rail: Option<string>, acier: Option<string>)
    ensures var code := ElementCode(Some(rayon), trav, rail, acier);
      Frequence(code) == if code in FrequenceMapping
        then ListedRate(RadiusDigit(Some(rayon)), SleeperDigit(trav), SteelDigit(acier))
        else DefaultFrequence
  {
    var code := ElementCode(Some(rayon), trav, rail, acier);
    if code in FrequenceMapping {
      KeyRate(code);
    }
  }

  /** The rate is zero exactly for listed codes of the two widest radius
      classes, i.e. curves of radius above 300 m. */
  lemma ZeroFrequence(rayon: real, trav: Option<string>, rail: Option<string>, acier: Option<string>)
    ensures Frequence(ElementCode(Some(rayon), trav, rail, acier)) == 0.0 <==>
      ElementCode(Some(rayon), trav, rail, acier) in FrequenceMapping && rayon > 300.0
  {
    FrequenceOnGrid(rayon, trav, rail, acier);
  }

  /** Among pieces that differ only in radius, a sharper curve never wears
      more slowly. */
  lemma SharperCurveWearsFaster(r1: real, r2: real, trav: Option<string>, rail: Option<string>,
                                acier: Option<string>)
    requires r1 <= r2
    ensures Frequence(ElementCode(Some(r2), trav, rail, acier)) <=
            Frequence(ElementCode(Some(r1), trav, rail, acier))
  {
    KnownCodes(r1, trav, rail, acier);
    KnownCodes(r2, trav, rail, acier);
    FrequenceOnGrid(r1, trav, rail, acier);
    FrequenceOnGrid(r2, trav, rail, acier);
    RadiusDigitAntitone(r1, r2);
  }

  // ---------------------------------------------------------------------
  // Years before grinding

  /** A float result of `reserve / (0.08 * frequence)` after `clip(lower=0)`:
      a finite number of years, plus infinity, or NaN. */
  datatype Years = Finite(years: real) | PosInf | Undefined

  /** Wear rate per unit of frequency (mm). */
  const WearPerPass: real := 0.08

  /** Years until the wear reserve is used up, never below zero. A zero rate
      divides a positive reserve into infinity, a negative one into minus
      infinity (clipped to 0) and a zero one into NaN; a missing reserve
      gives NaN. */
  function Annee(reserve: Option<real>, f: real): (y: Years)
    ensures y.Finite? ==> y.years >= 0.0
    ensures y == Undefined <==> reserve.None? || (f == 0.0 && reserve.value == 0.0)
    ensures y == PosInf <==> reserve.Some? && f == 0.0 && reserve.value > 0.0
  {
    match reserve
    case None => Undefined
    case Some(r) =>
      if f == 0.0 then
        if r > 0.0 then PosInf else if r < 0.0 then Finite(0.0) else Undefined
      else
        Finite(MaxR(r / (WearPerPass * f), 0.0))
  }

  /** With a positive rate, the years times the yearly wear give back the
      reserve whenever the reserve is not negative. */
  lemma AnneeRecoversReserve(r: real, f: real)
    requires f > 0.0 && r >= 0.0
    ensures Annee(Some(r), f).Finite?
    ensures Annee(Some(r), f).years * (WearPerPass * f) == r
  {
    var q := r / (WearPerPass * f);
    assert q * (WearPerPass * f) == r;
    assert q >= 0.0;
  }

  /** A rail already worn past its limit is due now, whatever the rate. */
  lemma WornOutIsDue(r: real, f: real)
    requires r < 0.0 && f >= 0.0
    ensures Annee(Some(r), f) == Finite(0.0)
  {
    if f != 0.0 {
      var q := r / (WearPerPass * f);
      assert q * (WearPerPass * f) == r;
      assert q < 0.0;
    }
  }

  /** A faster rate never leaves more years. */
  lemma AnneeAntitone(r: real, f1: real, f2: real)
    requires 0.0 < f1 <= f2 && r >= 0.0
    ensures Annee(Some(r), f2).Finite? && Annee(Some(r), f1).Finite?
    ensures Annee(Some(r), f2).years <= Annee(Some(r), f1).years
  {
    AnneeRecoversReserve(r, f1);
    AnneeRecoversReserve(r, f2);
    var a := Annee(Some(r), f1).years;
    var b := Annee(Some(r), f2).years;
    var w1, w2 := WearPerPass * f1, WearPerPass * f2;
    assert b * w2 == r == a * w1;
    var gap := a * (w2 - w1);
    ProductNonNegative(a, w2 - w1);
    assert a * w2 == a * w1 + gap;
    assert (b - a) * w2 == b * w2 - a * w2;
    if b > a {
      ProductPositive(b - a, w2);
      assert false;
    }
  }

  lemma ProductPositive(x: real, y: real)
    requires x > 0.0 && y > 0.0
    ensures x * y > 0.0
  {
  }

  lemma ProductNonNegative(x: real, y: real)
    requires x >= 0.0 && y >= 0.0
    ensures x * y >= 0.0
  {
  }

  /** Twice the rate leaves half the years. */
  lemma AnneeHalves(r: real, f: real)
    requires f > 0.0 && r >= 0.0
    ensures Annee(Some(r), 2.0 * f).Finite? && Annee(Some(r), f).Finite?
    ensures 2.0 * Annee(Some(r), 2.0 * f).years == Annee(Some(r), f).years
  {
    AnneeRecoversReserve(r, f);
    AnneeRecoversReserve(r, 2.0 * f);
  }

  /** A zero rate is reached by a real piece: a wide curve on concrete
      sleepers with 46 E1 rail of grade R 260. */
  lemma ZeroRateReachable()
    ensures Frequence(ElementCode(Some(700.0), Some("Béton"), Some("46 E1"), Some("R 260"))) == 0.0
    ensures Annee(Some(0.05), 0.0) == PosInf
  {
    assert OccursAt("46 E1", "46 E1", 0);
  }

  // ---------------------------------------------------------------------
  // Per-piece attribution and the whole pass

  /** A piece with its code, rate, wear reserve and years left. */
  datatype StdRow = StdRow(piece: Piece, code: string, frequence: real, reserve: Option<real>,
                           annee: Years)

  /** The curve table's `reserve_usure_min` for curve `g`: a left merge on
      the curve id, missing when no curve carries that id. */
  function ReserveOf(curves: seq<CurveStats>, g: nat): (r: Option<real>)
    ensures (forall j :: 0 <= j < |curves| ==> curves[j].groupe != g) ==> r.None?
    ensures r.Some? ==> exists j :: 0 <= j < |curves| && curves[j].groupe == g && curves[j].reserveMin == r
  {
    if curves == [] then None
    else if curves[0].groupe == g then curves[0].reserveMin
    else
      var r := ReserveOf(curves[1..], g);
      assert forall j :: 1 <= j < |curves| ==> curves[1..][j - 1] == curves[j];
      r
  }

  /** Curve ids are distinct, as in the table built per group. */
  predicate DistinctGroupes(curves: seq<CurveStats>)
  {
    forall a, b :: 0 <= a < b < |curves| ==> curves[a].groupe != curves[b].groupe
  }

  /** With distinct ids the merge finds exactly the curve's reserve. */
  lemma {:induction false} ReserveOfCurve(curves: seq<CurveStats>, j: nat)
    requires DistinctGroupes(curves) && j < |curves|
    ensures ReserveOf(curves, curves[j].groupe) == curves[j].reserveMin
  {
    if j > 0 {
      assert curves[0].groupe != curves[j].groupe;
      assert curves[1..][j - 1] == curves[j];
      ReserveOfCurve(curves[1..], j - 1);
    }
  }

  /** The curve table has one row per id, so its ids are distinct. */
  lemma TableGroupesDistinct(recs: seq<CurveAnalysis.CurveRecord>, est: CurveAnalysis.Estimators,
                             gw: real)
    requires CurveAnalysis.Consecutive(CurveAnalysis.RecordIds(recs))
    ensures DistinctGroupes(IntervalJoin.CurvesToKm(CurveAnalysis.OutputRiffel(recs, est, gw)))
  {
    var table := CurveAnalysis.OutputRiffel(recs, est, gw);
    var km := IntervalJoin.CurvesToKm(table);
    forall k | 0 <= k < |km|
      ensures km[k].groupe == k + 1
    {
      assert km[k].groupe == table[k].groupe;
    }
  }

  /** Code, rate, reserve and years of one piece. */
  function Standardise(p: Piece, curves: seq<CurveStats>): StdRow
  {
    var code := ElementCode(Some(p.rayon), p.seg.typTrav, p.seg.typRail, p.seg.qualiteAcier);
    var f := Frequence(code);
    var reserve := ReserveOf(curves, p.groupe);
    StdRow(p, code, f, reserve, Annee(reserve, f))
  }

  /** `apply` of the attribution over every piece, in order. */
  function StandardiseAll(pieces: seq<Piece>, curves: seq<CurveStats>): (r: seq<StdRow>)
    ensures |r| == |pieces|
    ensures forall k :: 0 <= k < |r| ==> r[k] == Standardise(pieces[k], curves)
  {
    if pieces == [] then []
    else [Standardise(pieces[0], curves)] + StandardiseAll(pieces[1..], curves)
  }

  /** The whole pass: curve bounds converted to kilometres, segments cut by
      the curves, each piece classified and its years derived. */
  method AttribuerElementStandard(segs: seq<Troncon>, table: seq<CurveStats>) returns (rows: seq<StdRow>)
    ensures rows == StandardiseAll(IntersectAll(segs, IntervalJoin.CurvesToKm(table)),
                                   IntervalJoin.CurvesToKm(table))
  {
    var curves := IntervalJoin.CurvesToKm(table);
    var pieces := Intersect(segs, curves);
    rows := StandardiseAll(pieces, curves);
  }

  /** Every output row is the cut of a segment by an overlapping curve, its
      rate is that of its code and, when curve ids are distinct, its years
      come from that very curve's reserve. */
  lemma RowsFromPairs(segs: seq<Troncon>, curves: seq<CurveStats>, k: nat)
    requires DistinctGroupes(curves)
    requires k < |StandardiseAll(IntersectAll(segs, curves), curves)|
    ensures var row := StandardiseAll(IntersectAll(segs, curves), curves)[k];
      exists i, j :: 0 <= i < |segs| && 0 <= j < |curves| &&
        Intersects(segs[i], curves[j]) && row.piece == Cut(segs[i], curves[j]) &&
        row.code == ElementCode(Some(row.piece.rayon), row.piece.seg.typTrav,
                                row.piece.seg.typRail, row.piece.seg.qualiteAcier) &&
        row.frequence == Frequence(row.code) &&
        row.annee == Annee(curves[j].reserveMin, row.frequence)
  {
    var pieces := IntersectAll(segs, curves);
    var p := pieces[k];
    IntersectAllMembers(segs, curves);
    assert p in pieces;
    var i, j :| 0 <= i < |segs| && 0 <= j < |curves| &&
      Intersects(segs[i], curves[j]) && p == Cut(segs[i], curves[j]);
    ReserveOfCurve(curves, j);
  }
}
