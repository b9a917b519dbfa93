/** The grinding programme: the pieces due within a year are merged into runs
    of neighbouring pieces, and the most urgent runs are taken while they
    fit into the yearly budget. */
module Scheduler {
  import opened Common
  import Attribution

  /** A stretch to grind: its bounds (km) and its years left. The length
      `Longueur` is always recomputed from the bounds. */
  datatype Section = Section(kmStart: real, kmEnd: real, annee: real)

  function Longueur(s: Section): real
  {
    s.kmEnd - s.kmStart
  }

  /** Why the programme cannot be produced. */
  datatype ScheduleError =
    | NoSectionDue  // the first row of an empty frame is read
    | NoNextRun     // the row after the last one is read

  // ---------------------------------------------------------------------
  // Selection of the pieces due

  /** The piece is due within a year; infinity and NaN compare false. */
  predicate Due(row: Attribution.StdRow)
  {
    row.annee.Finite? && row.annee.years <= 1.0
  }

  function SectionOf(row: Attribution.StdRow): Section
    requires Due(row)
  {
    Section(row.piece.seg.kmStart, row.piece.seg.kmEnd, row.annee.years)
  }

  /** The rows due, in their original order. */
  function Eligible(rows: seq<Attribution.StdRow>): (r: seq<Section>)
    ensures |r| <= |rows|
    ensures forall k :: 0 <= k < |r| ==> r[k].annee <= 1.0
  {
    if rows == [] then []
    else
      var last := rows[|rows| - 1];
      Eligible(rows[..|rows| - 1]) + (if Due(last) then [SectionOf(last)] else [])
  }

  /** A section is kept iff it comes from a row that is due. */
  lemma {:induction false} EligibleMembers(rows: seq<Attribution.StdRow>)
    ensures forall x :: x in Eligible(rows) <==>
      (exists j :: 0 <= j < |rows| && Due(rows[j]) && x == SectionOf(rows[j]))
  {
    if rows != [] {
      var init := rows[..|rows| - 1];
      EligibleMembers(init);
      assert forall j :: 0 <= j < |init| ==> init[j] == rows[j];
    }
  }

  function StartKey(s: Section): real
  {
    s.kmStart
  }

  function AnneeKey(s: Section): real
  {
    s.annee
  }

  // ---------------------------------------------------------------------
  // Merging neighbours

  /** Largest gap (km) across which two pieces are merged. */
  const SeuilFusion: real := 0.19

  /** A run longer than this (km) takes no further piece. */
  const MaxRunLength: real := 0.85

  /** The next piece joins the current run. */
  predicate Joins(cur: Section, s: Section)
  {
    s.kmStart - cur.kmEnd <= SeuilFusion && Longueur(cur) <= MaxRunLength
  }

  /** The run after `s` joins it: the end is extended, the start kept, and
      the most urgent year kept. */
  function Extend(cur: Section, s: Section): Section
  {
    Section(cur.kmStart, MaxR(cur.kmEnd, s.kmEnd), MinR(cur.annee, s.annee))
  }

  /** The run made of the pieces `b`, merged one after the other. */
  function Summary(b: seq<Section>): Section
    requires |b| > 0
  {
    if |b| == 1 then b[0] else Extend(Summary(b[..|b| - 1]), b[|b| - 1])
  }

  /** A run starts at its first piece, reaches the furthest end of its
      pieces and is as urgent as its most urgent piece. */
  lemma {:induction false} SummaryBounds(b: seq<Section>)
    requires |b| > 0
    ensures Summary(b).kmStart == b[0].kmStart
    ensures forall k :: 0 <= k < |b| ==> Summary(b).annee <= b[k].annee && b[k].kmEnd <= Summary(b).kmEnd
    ensures exists k :: 0 <= k < |b| && Summary(b).annee == b[k].annee
    ensures exists k :: 0 <= k < |b| && Summary(b).kmEnd == b[k].kmEnd
  {
    if |b| > 1 {
      var init := b[..|b| - 1];
      SummaryBounds(init);
      assert forall k :: 0 <= k < |init| ==> init[k] == b[k];
      var ka :| 0 <= ka < |init| && Summary(init).annee == init[ka].annee;
      var ke :| 0 <= ke < |init| && Summary(init).kmEnd == init[ke].kmEnd;
      if Summary(b).annee != b[|b| - 1].annee {
        assert Summary(b).annee == b[ka].annee;
      }
      if Summary(b).kmEnd != b[|b| - 1].kmEnd {
        assert Summary(b).kmEnd == b[ke].kmEnd;
      }
    }
  }

  /** The pieces in order, block after block. */
  function Flatten(bs: seq<seq<Section>>): seq<Section>
  {
    if bs == [] then [] else Flatten(bs[..|bs| - 1]) + bs[|bs| - 1]
  }

  lemma FlattenSnoc(bs: seq<seq<Section>>, b: seq<Section>)
    ensures Flatten(bs + [b]) == Flatten(bs) + b
  {
    assert (bs + [b])[..|bs|] == bs;
  }

  /** The pieces of each run, as the single sweep groups them: a piece
      joins the last run when it is close enough and that run is still
      short, and starts a new run otherwise. */
  function Blocks(s: seq<Section>): (bs: seq<seq<Section>>)
    requires |s| > 0
    ensures 0 < |bs| <= |s|
    ensures forall k :: 0 <= k < |bs| ==> |bs[k]| > 0
  {
    if |s| == 1 then [[s[0]]]
    else
      var prev := Blocks(s[..|s| - 1]);
      var x := s[|s| - 1];
      var last := prev[|prev| - 1];
      if Joins(Summary(last), x) then prev[..|prev| - 1] + [last + [x]]
      else prev + [[x]]
  }

  /** The runs, one per block. */
  function Summaries(bs: seq<seq<Section>>): (r: seq<Section>)
    requires forall k :: 0 <= k < |bs| ==> |bs[k]| > 0
    ensures |r| == |bs|
    ensures forall k :: 0 <= k < |r| ==> r[k] == Summary(bs[k])
  {
    if bs == [] then []
    else
      var init := bs[..|bs| - 1];
      assert forall k :: 0 <= k < |init| ==> init[k] == bs[k];
      Summaries(init) + [Summary(bs[|bs| - 1])]
  }

  /** The blocks partition the pieces: read in order they give back the
      input, so every piece belongs to exactly one run. */
  lemma {:induction false} BlocksPartition(s: seq<Section>)
    requires |s| > 0
    ensures Flatten(Blocks(s)) == s
  {
    if |s| > 1 {
      var init := s[..|s| - 1];
      BlocksPartition(init);
      BlocksAddLast(s);
      assert init + [s[|s| - 1]] == s;
    }
  }

  lemma AppendAssoc(a: seq<Section>, b: seq<Section>, c: seq<Section>)
    ensures a + (b + c) == (a + b) + c
  {
  }

  /** Read in order, the blocks of `s` are those of its prefix followed by
      its last piece, whether that piece joins the last run or opens one. */
  lemma BlocksAddLast(s: seq<Section>)
    requires |s| > 1
    ensures Flatten(Blocks(s)) == Flatten(Blocks(s[..|s| - 1])) + [s[|s| - 1]]
  {
    var prev := Blocks(s[..|s| - 1]);
    var x := s[|s| - 1];
    var last := prev[|prev| - 1];
    if Joins(Summary(last), x) {
      var front := prev[..|prev| - 1];
      assert prev == front + [last];
      assert Blocks(s) == front + [last + [x]];
      FlattenSnoc(front, last + [x]);
      FlattenSnoc(front, last);
      AppendAssoc(Flatten(front), last, [x]);
    } else {
      assert Blocks(s) == prev + [[x]];
      FlattenSnoc(prev, [x]);
    }
  }

  /** Proof step only: unfolds `Blocks` once, at the prefix of length
      `i + 1`. */
  lemma BlocksStep(s: seq<Section>, i: nat)
    requires 0 < i < |s|
    ensures Blocks(s[..i + 1]) ==
      if Joins(Summary(Blocks(s[..i])[|Blocks(s[..i])| - 1]), s[i])
      then Blocks(s[..i])[..|Blocks(s[..i])| - 1] + [Blocks(s[..i])[|Blocks(s[..i])| - 1] + [s[i]]]
      else Blocks(s[..i]) + [[s[i]]]
  {
    assert s[..i + 1][..i] == s[..i];
  }

  lemma SummaryExtend(b: seq<Section>, x: Section)
    requires |b| > 0
    ensures Summary(b + [x]) == Extend(Summary(b), x)
  {
    assert (b + [x])[..|b|] == b;
  }

  lemma SummariesSnoc(bs: seq<seq<Section>>, b: seq<Section>)
    requires forall k :: 0 <= k < |bs| ==> |bs[k]| > 0
    requires |b| > 0
    ensures Summaries(bs + [b]) == Summaries(bs) + [Summary(b)]
  {
    assert (bs + [b])[..|bs|] == bs;
  }

  /** Inside a run, every piece joins the run made of the pieces before it. */
  lemma {:induction false} BlocksJoinInside(s: seq<Section>)
    requires |s| > 0
    ensures forall k :: 0 <= k < |Blocks(s)| ==>
      forall m :: 0 < m < |Blocks(s)[k]| ==> Joins(Summary(Blocks(s)[k][..m]), Blocks(s)[k][m])
  {
    if |s| > 1 {
      var init := s[..|s| - 1];
      var prev := Blocks(init);
      var x := s[|s| - 1];
      var n := |prev|;
      var last := prev[n - 1];
      BlocksJoinInside(init);
      var bs := Blocks(s);
      if Joins(Summary(last), x) {
        assert forall k :: 0 <= k < n - 1 ==> bs[k] == prev[k];
        var nb := last + [x];
        assert bs[n - 1] == nb;
        forall m | 0 < m < |nb|
          ensures Joins(Summary(nb[..m]), nb[m])
        {
          if m < |last| {
            assert nb[..m] == last[..m];
            assert nb[m] == last[m];
          } else {
            assert nb[..m] == last;
          }
        }
      } else {
        assert forall k :: 0 <= k < n ==> bs[k] == prev[k];
      }
    }
  }

  /** A run is closed only where the next piece does not join it. */
  lemma {:induction false} BlocksSplitWhereNoJoin(s: seq<Section>)
    requires |s| > 0
    ensures forall k :: 0 <= k < |Blocks(s)| - 1 ==> !Joins(Summary(Blocks(s)[k]), Blocks(s)[k + 1][0])
  {
    if |s| > 1 {
      var init := s[..|s| - 1];
      var prev := Blocks(init);
      var x := s[|s| - 1];
      var n := |prev|;
      var last := prev[n - 1];
      BlocksSplitWhereNoJoin(init);
      var bs := Blocks(s);
      var joined := Joins(Summary(last), x);
      assert bs == if joined then prev[..n - 1] + [last + [x]] else prev + [[x]];
      forall k | 0 <= k < |bs| - 1
        ensures !Joins(Summary(bs[k]), bs[k + 1][0])
      {
        if k < n - 1 {
          assert bs[k] == prev[k];
          assert bs[k + 1][0] == prev[k + 1][0];
        } else {
          assert !joined && bs[k] == last && bs[k + 1] == [x];
        }
      }
    }
  }

  /** The merge sweep over the pieces sorted by start: a run is extended
      while the next piece joins it and is closed otherwise; the last run is
      always closed. An empty input fails when its first row is read. */
  method MergeRuns(s: seq<Section>) returns (r: Result<seq<Section>, ScheduleError>)
    ensures s == [] ==> r == Err(NoSectionDue)
    ensures s != [] ==> r == Ok(Summaries(Blocks(s)))
  {
    if |s| == 0 {
      return Err(NoSectionDue);
    }
    var done: seq<Section> := [];
    var cur := s[0];
    SweepStart(s);
    for i := 1 to |s|
      invariant SweepState(s, i, done, cur)
    {
      var x := s[i];
      SweepStep(s, i, done, cur);
      if x.kmStart - cur.kmEnd <= SeuilFusion && Longueur(cur) <= MaxRunLength {
        cur := Extend(cur, x);
      } else {
        done := done + [cur];
        cur := x;
      }
    }
    SweepEnd(s, done, cur);
    r := Ok(done + [cur]);
  }

  /** After `i` pieces the sweep has closed the runs of all blocks but the
      last, and holds the last block's run as the current one. */
  ghost predicate SweepState(s: seq<Section>, i: nat, done: seq<Section>, cur: Section)
  {
    0 < i <= |s| && |Blocks(s[..i])| == |done| + 1 &&
    done == Summaries(Blocks(s[..i])[..|done|]) &&
    cur == Summary(Blocks(s[..i])[|done|])
  }

  lemma SweepStart(s: seq<Section>)
    requires |s| > 0
    ensures SweepState(s, 1, [], s[0])
  {
    assert s[..1] == [s[0]];
  }

  /** One iteration of the sweep keeps its state. */
  lemma SweepStep(s: seq<Section>, i: nat, done: seq<Section>, cur: Section)
    requires SweepState(s, i, done, cur) && i < |s|
    ensures Joins(cur, s[i]) ==> SweepState(s, i + 1, done, Extend(cur, s[i]))
    ensures !Joins(cur, s[i]) ==> SweepState(s, i + 1, done + [cur], s[i])
  {
    var bs := Blocks(s[..i]);
    var x := s[i];
    var front, last := bs[..|done|], bs[|done|];
    assert bs == front + [last];
    BlocksStep(s, i);
    if Joins(cur, x) {
      SummaryExtend(last, x);
      var next := front + [last + [x]];
      assert Blocks(s[..i + 1]) == next;
      assert next[..|done|] == front;
    } else {
      SummariesSnoc(front, last);
      var next := bs + [[x]];
      assert Blocks(s[..i + 1]) == next;
      assert next[..|done| + 1] == bs;
    }
  }

  /** When every piece is read, the closed runs and the current one are the
      runs of all blocks. */
  lemma SweepEnd(s: seq<Section>, done: seq<Section>, cur: Section)
    requires SweepState(s, |s|, done, cur)
    ensures done + [cur] == Summaries(Blocks(s))
  {
    assert s[..|s|] == s;
    var bs := Blocks(s);
    SummariesSnoc(bs[..|done|], bs[|done|]);
    assert bs[..|done|] + [bs[|done|]] == bs;
  }

  // ---------------------------------------------------------------------
  // Budget

  /** Yearly budget (CHF), cost per metre (CHF) and the length it pays (km). */
  const BudgetMax: real := 42000.0
  const CoutParMetre: real := 10.0
  const MetresMaxKm: real := BudgetMax / CoutParMetre / 1000.0

  /** Total length of some runs. */
  function Total(runs: seq<Section>): real
  {
    if runs == [] then 0.0 else Total(runs[..|runs| - 1]) + Longueur(runs[|runs| - 1])
  }

  /** Run `i` still fits after every run before it was taken. */
  predicate Fits(runs: seq<Section>, i: nat)
    requires i < |runs|
  {
    Total(runs[..i]) + Longueur(runs[i]) <= MetresMaxKm
  }

  /** The first run from `i` on that does not fit, if any. */
  function FirstMisfit(runs: seq<Section>, i: nat): (m: Option<nat>)
    requires i <= |runs|
    decreases |runs| - i
    ensures m.None? ==> forall k :: i <= k < |runs| ==> Fits(runs, k)
    ensures m.Some? ==> (i <= m.value < |runs| && !Fits(runs, m.value) &&
      forall k :: i <= k < m.value ==> Fits(runs, k))
  {
    if i == |runs| then None
    else if !Fits(runs, i) then Some(i)
    else FirstMisfit(runs, i + 1)
  }

  /** The greedy selection: every run up to the first that does not fit;
      when that run is the last one, the look-ahead past it fails. */
  function SelectSpec(runs: seq<Section>): Result<seq<Section>, ScheduleError>
  {
    match FirstMisfit(runs, 0)
    case None => Ok(runs)
    case Some(m) => if m + 1 < |runs| then Ok(runs[..m]) else Err(NoNextRun)
  }

  /** The selection loop, with its early exit. */
  method Select(runs: seq<Section>) returns (r: Result<seq<Section>, ScheduleError>)
    ensures r == SelectSpec(runs)
  {
    var total := 0.0;
    var selection: seq<Section> := [];
    for i := 0 to |runs|
      invariant selection == runs[..i] && total == Total(runs[..i])
      invariant forall k :: 0 <= k < i ==> Fits(runs, k)
    {
      if total + Longueur(runs[i]) <= MetresMaxKm {
        assert runs[..i + 1][..i] == runs[..i];
        selection := selection + [runs[i]];
        total := total + Longueur(runs[i]);
      } else {
        FirstMisfitAt(runs, i);
        if i + 1 >= |runs| {
          return Err(NoNextRun);
        }
        return Ok(selection);
      }
    }
    assert runs[..|runs|] == runs;
    r := Ok(selection);
  }

  /** The first misfit is the first run that does not fit. */
  lemma FirstMisfitAt(runs: seq<Section>, i: nat)
    requires i < |runs| && !Fits(runs, i)
    requires forall k :: 0 <= k < i ==> Fits(runs, k)
    ensures FirstMisfit(runs, 0) == Some(i)
  {
  }

  /** The selection never exceeds the budget. */
  lemma SelectWithinBudget(runs: seq<Section>)
    requires SelectSpec(runs).Ok?
    ensures Total(SelectSpec(runs).value) <= MetresMaxKm
  {
    var sel := SelectSpec(runs).value;
    var m := |sel|;
    if m > 0 {
      assert Fits(runs, m - 1);
      assert sel == runs[..m];
      assert runs[..m][..m - 1] == runs[..m - 1];
    }
  }

  /** The selection is a prefix, and it stops only at a run that does not
      fit; the look-ahead fails exactly when that run is the last one. */
  lemma SelectMaximal(runs: seq<Section>)
    ensures SelectSpec(runs).Ok? ==>
      var sel := SelectSpec(runs).value;
      |sel| <= |runs| && sel == runs[..|sel|] &&
      (|sel| == |runs| || (!Fits(runs, |sel|) && |sel| + 1 < |runs|))
    ensures SelectSpec(runs).Err? <==> FirstMisfit(runs, 0) == Some(|runs| - 1)
  {
    if FirstMisfit(runs, 0).None? {
      assert runs[..|runs|] == runs;
    }
  }

  /** With the runs sorted by years left, no run left out is more urgent
      than a selected one. */
  lemma SelectMostUrgent(runs: seq<Section>)
    requires SortedBy(runs, AnneeKey)
    requires SelectSpec(runs).Ok?
    ensures forall a, b :: 0 <= a < |SelectSpec(runs).value| <= b < |runs| ==>
      runs[a].annee <= runs[b].annee
  {
    forall a, b | 0 <= a < |SelectSpec(runs).value| <= b < |runs|
      ensures runs[a].annee <= runs[b].annee
    {
      assert AnneeKey(runs[a]) <= AnneeKey(runs[b]);
    }
  }

  // ---------------------------------------------------------------------
  // The whole programme

  /** Due pieces sorted by start, merged into runs, runs sorted by years
      left, then selected under the budget. The two `sort_values` calls are
      the parameters `sortStart` and `sortAnnee`: the programme is stated for
      whichever order they give to equal keys. */
  function ScheduleSpec(rows: seq<Attribution.StdRow>, sortStart: seq<Section> -> seq<Section>,
                        sortAnnee: seq<Section> -> seq<Section>): Result<seq<Section>, ScheduleError>
  {
    var due := sortStart(Eligible(rows));
    if due == [] then Err(NoSectionDue)
    else SelectSpec(sortAnnee(Summaries(Blocks(due))))
  }

  method Schedule(rows: seq<Attribution.StdRow>, sortStart: seq<Section> -> seq<Section>,
                  sortAnnee: seq<Section> -> seq<Section>) returns (r: Result<seq<Section>, ScheduleError>)
    ensures r == ScheduleSpec(rows, sortStart, sortAnnee)
  {
    var due := sortStart(Eligible(rows));
    var merged := MergeRuns(due);
    if merged.Err? {
      return Err(merged.error);
    }
    var runs := sortAnnee(merged.value);
    r := Select(runs);
  }

  /** Sections with the same start, sorted one way or the other, merge into
      different runs: the order a sort gives to equal keys matters. */
  lemma TieOrderChangesRuns()
    ensures var a := Section(0.0, 1.0, 0.5);
      var b := Section(0.0, 0.1, 0.5);
      SortedBy([a, b], StartKey) && SortedBy([b, a], StartKey) &&
      |Summaries(Blocks([a, b]))| == 2 && |Summaries(Blocks([b, a]))| == 1
  {
    var a := Section(0.0, 1.0, 0.5);
    var b := Section(0.0, 0.1, 0.5);
    assert [a, b][..1] == [a] && [b, a][..1] == [b];
    assert Blocks([a]) == [[a]] && Blocks([b]) == [[b]];
    assert Summary([a]) == a && Summary([b]) == b;
    assert !Joins(a, b) && Joins(b, a);
  }

  /** Every element of a block is one of the pieces. */
  lemma {:induction false} FlattenMembers(bs: seq<seq<Section>>, k: nat, m: nat)
    requires k < |bs| && m < |bs[k]|
    ensures bs[k][m] in Flatten(bs)
  {
    var init := bs[..|bs| - 1];
    if k < |bs| - 1 {
      assert init[k] == bs[k];
      FlattenMembers(init, k, m);
    }
  }

  /** Runs made of pieces due within a year are due within a year. */
  lemma RunsDue(s: seq<Section>)
    requires |s| > 0
    requires forall k :: 0 <= k < |s| ==> s[k].annee <= 1.0
    ensures forall k :: 0 <= k < |Summaries(Blocks(s))| ==> Summaries(Blocks(s))[k].annee <= 1.0
  {
    var bs := Blocks(s);
    BlocksPartition(s);
    forall k | 0 <= k < |Summaries(bs)|
      ensures Summaries(bs)[k].annee <= 1.0
    {
      FlattenMembers(bs, k, 0);
      SummaryBounds(bs[k]);
    }
  }

  /** Every run of the programme is due within a year, and the programme
      fits the budget. */
  lemma ScheduleDueAndWithinBudget(rows: seq<Attribution.StdRow>, sortStart: seq<Section> -> seq<Section>,
                                   sortAnnee: seq<Section> -> seq<Section>)
    requires IsSort(sortStart, StartKey) && IsSort(sortAnnee, AnneeKey)
    requires ScheduleSpec(rows, sortStart, sortAnnee).Ok?
    ensures forall x :: x in ScheduleSpec(rows, sortStart, sortAnnee).value ==> x.annee <= 1.0
    ensures Total(ScheduleSpec(rows, sortStart, sortAnnee).value) <= MetresMaxKm
  {
    var due := sortStart(Eligible(rows));
    assert multiset(due) == multiset(Eligible(rows));
    forall k | 0 <= k < |due|
      ensures due[k].annee <= 1.0
    {
      assert due[k] in multiset(Eligible(rows));
    }
    var merged := Summaries(Blocks(due));
    RunsDue(due);
    var runs := sortAnnee(merged);
    assert multiset(runs) == multiset(merged);
    SelectWithinBudget(runs);
    SelectMaximal(runs);
    forall x | x in ScheduleSpec(rows, sortStart, sortAnnee).value
      ensures x.annee <= 1.0
    {
      assert x in multiset(merged);
    }
  }

  /** Whatever order the sorts give to equal keys, the programme is a prefix
      of the runs sorted by years left, and no run left out is more urgent
      than a selected one. */
  lemma ScheduleMostUrgent(rows: seq<Attribution.StdRow>, sortStart: seq<Section> -> seq<Section>,
                           sortAnnee: seq<Section> -> seq<Section>)
    requires IsSort(sortStart, StartKey) && IsSort(sortAnnee, AnneeKey)
    requires ScheduleSpec(rows, sortStart, sortAnnee).Ok?
    ensures var runs := sortAnnee(Summaries(Blocks(sortStart(Eligible(rows)))));
      var sel := ScheduleSpec(rows, sortStart, sortAnnee).value;
      sel == runs[..|sel|] &&
      forall a, b :: 0 <= a < |sel| <= b < |runs| ==> runs[a].annee <= runs[b].annee
  {
    var runs := sortAnnee(Summaries(Blocks(sortStart(Eligible(rows)))));
    assert SortedBy(runs, AnneeKey);
    SelectMaximal(runs);
    SelectMostUrgent(runs);
  }
}
