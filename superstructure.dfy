/** Clean-up of the infrastructure segments (sleeper type, rail profile, steel
    grade per kilometre range) and the selection of the segments drawn on the
    top lane of each category, which form the partition of the line that is
    written out. */
module Superstructure {
  import opened Common

  /** One row of the segment table; bounds and attributes may be missing. */
  datatype Segment = Segment(
    kmStart: Option<real>,
    kmEnd: Option<real>,
    typTrav: Option<string>,
    typRail: Option<string>,
    qualiteAcier: Option<string>)

  // ---------------------------------------------------------------------
  // Column clean-up

  /** Start and end are exchanged when the start lies after the end; a row
      with a missing bound compares false and is left as it is. */
  function SwapBounds(s: Segment): (r: Segment)
    ensures r.typTrav == s.typTrav && r.typRail == s.typRail && r.qualiteAcier == s.qualiteAcier
    ensures (r.kmStart, r.kmEnd) == (s.kmStart, s.kmEnd) || (r.kmStart, r.kmEnd) == (s.kmEnd, s.kmStart)
    ensures r.kmStart.Some? && r.kmEnd.Some? ==> r.kmStart.value <= r.kmEnd.value
    ensures s.kmStart.None? || s.kmEnd.None? || s.kmStart.value <= s.kmEnd.value ==> r == s
  {
    if s.kmStart.Some? && s.kmEnd.Some? && s.kmStart.value > s.kmEnd.value then
      s.(kmStart := s.kmEnd, kmEnd := s.kmStart)
    else
      s
  }

  /** Segments longer than 20 km are dropped; so is a row with a missing bound,
      whose length is missing and fails the comparison. */
  predicate KeepShort(s: Segment)
  {
    s.kmStart.Some? && s.kmEnd.Some? && s.kmEnd.value - s.kmStart.value <= 20.0
  }

  /** The rail profile names shown in the legend. */
  function RenameRail(name: Option<string>): (r: Option<string>)
    ensures name == Some("CFF I") ==> r == Some("46 E1")
    ensures name == Some("CFF IV") ==> r == Some("54 E2")
    ensures name != Some("CFF I") && name != Some("CFF IV") ==> r == name
    ensures r != Some("CFF I") && r != Some("CFF IV")
  {
    if name == Some("CFF I") then Some("46 E1")
    else if name == Some("CFF IV") then Some("54 E2")
    else name
  }

  /** Renaming a second time changes nothing. */
  lemma RenameRailIdempotent(name: Option<string>)
    ensures RenameRail(RenameRail(name)) == RenameRail(name)
  {
  }

  /** A row as the clean-up leaves it: both bounds present and in order, at
      most 20 km long, and the rail profile under its new name. */
  predicate Cleaned(s: Segment)
  {
    s.kmStart.Some? && s.kmEnd.Some? &&
    s.kmStart.value <= s.kmEnd.value && s.kmEnd.value - s.kmStart.value <= 20.0 &&
    s.typRail != Some("CFF I") && s.typRail != Some("CFF IV")
  }

  /** The cleaned form of one row that survives the length filter. */
  function CleanRow(s: Segment): (r: Segment)
    requires KeepShort(SwapBounds(s))
    ensures Cleaned(r)
    ensures r.kmStart == SwapBounds(s).kmStart && r.kmEnd == SwapBounds(s).kmEnd
    ensures r.typRail == RenameRail(s.typRail)
    ensures r.typTrav == s.typTrav && r.qualiteAcier == s.qualiteAcier
  {
    var t := SwapBounds(s);
    t.(typRail := RenameRail(t.typRail))
  }

  /** Swap, length filter and renaming applied to the whole table, keeping the
      row order. */
  function Clean(ss: seq<Segment>): (r: seq<Segment>)
    ensures |r| <= |ss|
    ensures forall k :: 0 <= k < |r| ==> Cleaned(r[k])
  {
    if ss == [] then
      []
    else
      var n := |ss| - 1;
      Clean(ss[..n]) + (if KeepShort(SwapBounds(ss[n])) then [CleanRow(ss[n])] else [])
  }

  /** Row `s` passes the length filter and comes out as `x`. */
  predicate CleansTo(s: Segment, x: Segment)
  {
    KeepShort(SwapBounds(s)) && x == CleanRow(s)
  }

  /** The cleaned table holds exactly the cleaned forms of the rows that pass
      the length filter. */
  lemma {:induction false} CleanMembers(ss: seq<Segment>)
    ensures forall x :: x in Clean(ss) <==> exists j :: 0 <= j < |ss| && CleansTo(ss[j], x)
  {
    if ss != [] {
      var n := |ss| - 1;
      var init := ss[..n];
      CleanMembers(init);
      var prev, tail := Clean(init), if KeepShort(SwapBounds(ss[n])) then [CleanRow(ss[n])] else [];
      assert Clean(ss) == prev + tail;
      forall x | x in prev + tail
        ensures exists j :: 0 <= j < |ss| && CleansTo(ss[j], x)
      {
        if x in prev {
          var j :| 0 <= j < n && CleansTo(init[j], x);
          assert init[j] == ss[j];
        } else {
          assert CleansTo(ss[n], x);
        }
      }
      forall x, j | 0 <= j < |ss| && CleansTo(ss[j], x)
        ensures x in prev + tail
      {
        if j < n {
          assert init[j] == ss[j];
          assert x in prev;
        }
      }
    }
  }

  // ---------------------------------------------------------------------
  // Lane placement

  /** A segment drawn at lane `lane` below its category's base line; lane 0
      is the base line itself and each further lane is 0.1 lower. */
  datatype Placed = Placed(start: real, end: real, lane: nat)

  /** The strict overlap test of the placement: touching ends do not count. */
  predicate Overlaps(aStart: real, aEnd: real, bStart: real, bEnd: real)
  {
    aStart < bEnd && aEnd > bStart
  }

  /** Some segment already on lane `lane` strictly overlaps `[s, e]`. */
  predicate Blocked(active: seq<Placed>, s: real, e: real, lane: nat)
  {
    exists k :: 0 <= k < |active| && active[k].lane == lane &&
      Overlaps(s, e, active[k].start, active[k].end)
  }

  /** One more than the deepest lane in use. */
  function LaneBound(active: seq<Placed>): (r: nat)
    ensures forall k :: 0 <= k < |active| ==> active[k].lane < r
  {
    if active == [] then
      0
    else
      var n := |active| - 1;
      var prev := LaneBound(active[..n]);
      assert forall k :: 0 <= k < n ==> active[..n][k] == active[k];
      if active[n].lane + 1 > prev then active[n].lane + 1 else prev
  }

  /** The first lane at or below `lane` on which `[s, e]` overlaps nothing. */
  function FirstFree(active: seq<Placed>, s: real, e: real, lane: nat): nat
    decreases LaneBound(active) - lane
  {
    if !Blocked(active, s, e, lane) then
      lane
    else
      var k :| 0 <= k < |active| && active[k].lane == lane && Overlaps(s, e, active[k].start, active[k].end);
      assert lane < LaneBound(active);
      FirstFree(active, s, e, lane + 1)
  }

  /** The lane found is free, and every lane tried before it is blocked. */
  lemma {:induction false} FirstFreeSpec(active: seq<Placed>, s: real, e: real, lane: nat)
    decreases LaneBound(active) - lane
    ensures lane <= FirstFree(active, s, e, lane)
    ensures !Blocked(active, s, e, FirstFree(active, s, e, lane))
    ensures forall l :: lane <= l < FirstFree(active, s, e, lane) ==> Blocked(active, s, e, l)
  {
    if Blocked(active, s, e, lane) {
      var k :| 0 <= k < |active| && active[k].lane == lane && Overlaps(s, e, active[k].start, active[k].end);
      assert lane < LaneBound(active);
      FirstFreeSpec(active, s, e, lane + 1);
    }
  }

  /** Whether both bounds of a row are present. */
  predicate Present(row: Segment)
  {
    row.kmStart.Some? && row.kmEnd.Some?
  }

  /** The placements after a pass over `rows`: a row with a missing bound is
      skipped, every other row goes on its first free lane. */
  function ActiveAfter(rows: seq<Segment>): (r: seq<Placed>)
    ensures |r| <= |rows|
  {
    if rows == [] then
      []
    else
      var n := |rows| - 1;
      var prev := ActiveAfter(rows[..n]);
      var row := rows[n];
      if Present(row) then
        prev + [Placed(row.kmStart.value, row.kmEnd.value,
                       FirstFree(prev, row.kmStart.value, row.kmEnd.value, 0))]
      else
        prev
  }

  /** A recorded segment: its bounds and its three attributes. */
  datatype Troncon = Troncon(
    kmStart: real,
    kmEnd: real,
    typTrav: Option<string>,
    typRail: Option<string>,
    qualiteAcier: Option<string>)

  function TupleOf(row: Segment): Troncon
    requires Present(row)
  {
    Troncon(row.kmStart.value, row.kmEnd.value, row.typTrav, row.typRail, row.qualiteAcier)
  }

  /** Whether row `rows[n]` lands on the base lane after `rows[..n]`. */
  predicate OnBase(rows: seq<Segment>, n: nat)
    requires n < |rows|
  {
    Present(rows[n]) &&
    FirstFree(ActiveAfter(rows[..n]), rows[n].kmStart.value, rows[n].kmEnd.value, 0) == 0
  }

  /** The tuples of the rows placed on the base lane, in row order, with
      repetitions. */
  function BaseTuples(rows: seq<Segment>): seq<Troncon>
  {
    if rows == [] then
      []
    else
      var n := |rows| - 1;
      BaseTuples(rows[..n]) + (if OnBase(rows, n) then [TupleOf(rows[n])] else [])
  }

  /** `acc` followed by the elements of `xs` not seen before, in first-seen
      order. */
  function DedupInto(acc: seq<Troncon>, xs: seq<Troncon>): seq<Troncon>
  {
    if xs == [] then
      acc
    else
      var n := |xs| - 1;
      var d := DedupInto(acc, xs[..n]);
      if xs[n] in d then d else d + [xs[n]]
  }

  function Dedup(xs: seq<Troncon>): seq<Troncon>
  {
    DedupInto([], xs)
  }

  /** The search of the placement: step one lane down while the segment
      strictly overlaps something on the current lane. */
  method FindLane(active: seq<Placed>, s: real, e: real) returns (lane: nat)
    ensures lane == FirstFree(active, s, e, 0)
  {
    lane := 0;
    while Blocked(active, s, e, lane)
      invariant FirstFree(active, s, e, lane) == FirstFree(active, s, e, 0)
      decreases LaneBound(active) - lane
    {
      lane := lane + 1;
    }
  }

  /** One category pass: lanes start empty; a tuple landing on the base lane
      is appended the first time it is seen. */
  method RecordPass(rows: seq<Segment>, recorded0: seq<Troncon>, seen0: set<Troncon>)
    returns (recorded: seq<Troncon>, seen: set<Troncon>)
    requires forall t :: t in seen0 <==> t in recorded0
    ensures recorded == DedupInto(recorded0, BaseTuples(rows))
    ensures forall t :: t in seen <==> t in recorded
  {
    recorded, seen := recorded0, seen0;
    var active: seq<Placed> := [];
    for i := 0 to |rows|
      invariant active == ActiveAfter(rows[..i])
      invariant recorded == DedupInto(recorded0, BaseTuples(rows[..i]))
      invariant forall t :: t in seen <==> t in recorded
    {
      var row := rows[i];
      var next := rows[..i + 1];
      assert next[..i] == rows[..i] && next[i] == row;
      var xs := BaseTuples(rows[..i]);
      assert BaseTuples(next) == xs + (if OnBase(next, i) then [TupleOf(row)] else []);
      if Present(row) {
        var s, e := row.kmStart.value, row.kmEnd.value;
        var lane := FindLane(active, s, e);
        assert OnBase(next, i) <==> lane == 0;
        active := active + [Placed(s, e, lane)];
        if lane == 0 {
          var t := TupleOf(row);
          assert BaseTuples(next) == xs + [t];
          assert (xs + [t])[..|xs|] == xs;
          assert DedupInto(recorded0, xs + [t]) ==
            (if t in recorded then recorded else recorded + [t]);
          if t !in seen {
            seen := seen + {t};
            recorded := recorded + [t];
          }
        } else {
          assert BaseTuples(next) == xs;
        }
      } else {
        assert BaseTuples(next) == xs;
      }
      assert recorded == DedupInto(recorded0, BaseTuples(next));
    }
    assert rows[..|rows|] == rows;
  }

  /** The number of category passes (sleeper type, rail profile, steel grade). */
  const CategoryCount: nat := 3

  /** `enregistrer_troncons`: one placement pass per category. The category
      column is never read by the placement, so every pass repeats the first
      and records nothing new. */
  method EnregistrerTroncons(rows: seq<Segment>) returns (recorded: seq<Troncon>)
    ensures recorded == Dedup(BaseTuples(rows))
  {
    recorded := [];
    var seen: set<Troncon> := {};
    for c := 0 to CategoryCount
      invariant c == 0 ==> recorded == []
      invariant c > 0 ==> recorded == Dedup(BaseTuples(rows))
      invariant forall t :: t in seen <==> t in recorded
    {
      recorded, seen := RecordPass(rows, recorded, seen);
      if c > 0 {
        LaterPassAddsNothing(rows);
      }
    }
  }

  // ---------------------------------------------------------------------
  // Properties of the placement

  /** Dedup keeps the prefix it starts from. */
  lemma {:induction false} DedupIntoExtends(acc: seq<Troncon>, xs: seq<Troncon>)
    ensures |acc| <= |DedupInto(acc, xs)| && DedupInto(acc, xs)[..|acc|] == acc
  {
    if xs != [] {
      DedupIntoExtends(acc, xs[..|xs| - 1]);
    }
  }

  /** The elements after dedup are exactly those of `acc` and `xs`. */
  lemma {:induction false} DedupIntoElements(acc: seq<Troncon>, xs: seq<Troncon>)
    ensures forall t :: t in DedupInto(acc, xs) <==> t in acc || t in xs
  {
    if xs != [] {
      var n := |xs| - 1;
      DedupIntoElements(acc, xs[..n]);
      assert xs == xs[..n] + [xs[n]];
    }
  }

  /** Passing over tuples that were all seen already adds nothing. */
  lemma {:induction false} DedupIntoSeen(acc: seq<Troncon>, xs: seq<Troncon>)
    requires forall t :: t in xs ==> t in acc
    ensures DedupInto(acc, xs) == acc
  {
    if xs != [] {
      var n := |xs| - 1;
      assert forall t :: t in xs[..n] ==> t in xs;
      DedupIntoSeen(acc, xs[..n]);
      assert xs[n] in xs;
    }
  }

  /** A second pass records nothing new (so the later categories only repeat
      the first one's placement). */
  lemma LaterPassAddsNothing(rows: seq<Segment>)
    ensures DedupInto(Dedup(BaseTuples(rows)), BaseTuples(rows)) == Dedup(BaseTuples(rows))
  {
    DedupIntoElements([], BaseTuples(rows));
    DedupIntoSeen(Dedup(BaseTuples(rows)), BaseTuples(rows));
  }

  /** No tuple is recorded twice, if `acc` has no repetition. */
  lemma {:induction false} DedupIntoDistinct(acc: seq<Troncon>, xs: seq<Troncon>)
    requires forall p, q :: 0 <= p < q < |acc| ==> acc[p] != acc[q]
    ensures forall p, q :: 0 <= p < q < |DedupInto(acc, xs)| ==> DedupInto(acc, xs)[p] != DedupInto(acc, xs)[q]
  {
    if xs != [] {
      var n := |xs| - 1;
      var d := DedupInto(acc, xs[..n]);
      DedupIntoDistinct(acc, xs[..n]);
      if xs[n] !in d {
        var e := d + [xs[n]];
        forall p, q | 0 <= p < q < |e|
          ensures e[p] != e[q]
        {
          if q == |d| {
            assert e[p] == d[p] && d[p] in d;
          } else {
            assert e[p] == d[p] && e[q] == d[q];
          }
        }
      }
    }
  }

  /** Recorded tuples are pairwise different and are exactly the base-lane
      tuples. */
  lemma DedupProperties(xs: seq<Troncon>)
    ensures forall t :: t in Dedup(xs) <==> t in xs
    ensures forall p, q :: 0 <= p < q < |Dedup(xs)| ==> Dedup(xs)[p] != Dedup(xs)[q]
  {
    DedupIntoElements([], xs);
    DedupIntoDistinct([], xs);
  }

  /** Placements come from the present rows only, one per present row, with
      the row's own bounds. */
  lemma {:induction false} ActiveFromPresentRows(rows: seq<Segment>)
    ensures forall k :: 0 <= k < |ActiveAfter(rows)| ==>
      exists j :: 0 <= j < |rows| && Present(rows[j]) &&
        ActiveAfter(rows)[k].start == rows[j].kmStart.value &&
        ActiveAfter(rows)[k].end == rows[j].kmEnd.value
  {
    if rows != [] {
      var n := |rows| - 1;
      var prev := ActiveAfter(rows[..n]);
      var act := ActiveAfter(rows);
      ActiveFromPresentRows(rows[..n]);
      forall k | 0 <= k < |act|
        ensures exists j :: (0 <= j < |rows| && Present(rows[j]) &&
          act[k].start == rows[j].kmStart.value && act[k].end == rows[j].kmEnd.value)
      {
        if k < |prev| {
          assert act[k] == prev[k];
          var j :| 0 <= j < n && Present(rows[..n][j]) &&
            prev[k].start == rows[..n][j].kmStart.value && prev[k].end == rows[..n][j].kmEnd.value;
          assert rows[..n][j] == rows[j];
        } else {
          assert act[k].start == rows[n].kmStart.value && act[k].end == rows[n].kmEnd.value;
        }
      }
      assert forall k :: 0 <= k < |ActiveAfter(rows)| ==>
        exists j :: 0 <= j < |rows| && Present(rows[j]) &&
          ActiveAfter(rows)[k].start == rows[j].kmStart.value &&
          ActiveAfter(rows)[k].end == rows[j].kmEnd.value;
    } else {
      assert |ActiveAfter(rows)| == 0;
    }
  }

  /** Two segments on the same lane never strictly overlap: the placement
      looks for a lane free of overlaps. */
  lemma {:induction false} SameLaneDisjoint(rows: seq<Segment>)
    ensures forall a, b ::
      0 <= a < b < |ActiveAfter(rows)| && ActiveAfter(rows)[a].lane == ActiveAfter(rows)[b].lane ==>
        !Overlaps(ActiveAfter(rows)[b].start, ActiveAfter(rows)[b].end,
                  ActiveAfter(rows)[a].start, ActiveAfter(rows)[a].end)
  {
    if rows != [] {
      var n := |rows| - 1;
      var prev := ActiveAfter(rows[..n]);
      var act := ActiveAfter(rows);
      SameLaneDisjoint(rows[..n]);
      forall a, b | 0 <= a < b < |act| && act[a].lane == act[b].lane
        ensures !Overlaps(act[b].start, act[b].end, act[a].start, act[a].end)
      {
        assert act[a] == prev[a];
        if b < |prev| {
          assert act[b] == prev[b];
        } else {
          var s, e := rows[n].kmStart.value, rows[n].kmEnd.value;
          assert act[b] == Placed(s, e, FirstFree(prev, s, e, 0));
          FirstFreeSpec(prev, s, e, 0);
        }
      }
    }
  }

  /** Every base-lane tuple has a placement on lane 0 with its bounds. */
  lemma {:induction false} BaseTuplesOnLaneZero(rows: seq<Segment>)
    ensures forall t :: t in BaseTuples(rows) ==>
      exists k :: 0 <= k < |ActiveAfter(rows)| &&
        ActiveAfter(rows)[k] == Placed(t.kmStart, t.kmEnd, 0)
  {
    if rows != [] {
      var n := |rows| - 1;
      var prev := ActiveAfter(rows[..n]);
      BaseTuplesOnLaneZero(rows[..n]);
      assert BaseTuples(rows) ==
        BaseTuples(rows[..n]) + (if OnBase(rows, n) then [TupleOf(rows[n])] else []);
      forall t | t in BaseTuples(rows)
        ensures exists k :: (0 <= k < |ActiveAfter(rows)| &&
          ActiveAfter(rows)[k] == Placed(t.kmStart, t.kmEnd, 0))
      {
        if t in BaseTuples(rows[..n]) {
          var k :| 0 <= k < |prev| && prev[k] == Placed(t.kmStart, t.kmEnd, 0);
          assert ActiveAfter(rows)[k] == prev[k];
        } else {
          assert OnBase(rows, n) && t == TupleOf(rows[n]);
          assert ActiveAfter(rows) == prev + [Placed(t.kmStart, t.kmEnd, 0)];
          assert ActiveAfter(rows)[|prev|] == Placed(t.kmStart, t.kmEnd, 0);
        }
      }
      assert forall t :: t in BaseTuples(rows) ==>
        exists k :: 0 <= k < |ActiveAfter(rows)| && ActiveAfter(rows)[k] == Placed(t.kmStart, t.kmEnd, 0);
    }
  }

  /** Base-lane tuples never strictly overlap one another; touching ends are
      allowed. */
  lemma {:induction false} BaseTuplesDisjoint(rows: seq<Segment>)
    ensures forall a, b :: 0 <= a < b < |BaseTuples(rows)| ==>
      !Overlaps(BaseTuples(rows)[b].kmStart, BaseTuples(rows)[b].kmEnd,
                BaseTuples(rows)[a].kmStart, BaseTuples(rows)[a].kmEnd)
  {
    if rows != [] {
      var n := |rows| - 1;
      var prev := BaseTuples(rows[..n]);
      BaseTuplesDisjoint(rows[..n]);
      if OnBase(rows, n) {
        var bt := BaseTuples(rows);
        var t := TupleOf(rows[n]);
        var act := ActiveAfter(rows[..n]);
        BaseTuplesOnLaneZero(rows[..n]);
        FirstFreeSpec(act, t.kmStart, t.kmEnd, 0);
        assert !Blocked(act, t.kmStart, t.kmEnd, 0);
        forall a | 0 <= a < |prev|
          ensures !Overlaps(t.kmStart, t.kmEnd, prev[a].kmStart, prev[a].kmEnd)
        {
          assert prev[a] in prev;
          var k :| 0 <= k < |act| && act[k] == Placed(prev[a].kmStart, prev[a].kmEnd, 0);
          assert act[k].lane == 0;
        }
        assert bt == prev + [t];
        forall a, b | 0 <= a < b < |bt|
          ensures !Overlaps(bt[b].kmStart, bt[b].kmEnd, bt[a].kmStart, bt[a].kmEnd)
        {
          assert bt[a] == prev[a];
          if b < |prev| {
            assert bt[b] == prev[b];
          }
        }
      }
    }
  }

  /** Every base-lane tuple is the tuple of a row with both bounds present,
      and every row that lands on the base lane contributes its tuple. */
  lemma {:induction false} BaseTuplesFromRows(rows: seq<Segment>)
    ensures forall t :: t in BaseTuples(rows) <==>
      exists j :: 0 <= j < |rows| && OnBase(rows, j) && t == TupleOf(rows[j])
  {
    if rows != [] {
      var n := |rows| - 1;
      var init := rows[..n];
      BaseTuplesFromRows(init);
      forall t | t in BaseTuples(rows)
        ensures exists j :: 0 <= j < |rows| && OnBase(rows, j) && t == TupleOf(rows[j])
      {
        if t in BaseTuples(init) {
          var j :| 0 <= j < n && OnBase(init, j) && t == TupleOf(init[j]);
          OnBasePrefix(rows, n, j);
        }
      }
      forall t | exists j :: 0 <= j < |rows| && OnBase(rows, j) && t == TupleOf(rows[j])
        ensures t in BaseTuples(rows)
      {
        var j :| 0 <= j < |rows| && OnBase(rows, j) && t == TupleOf(rows[j]);
        if j < n {
          OnBasePrefix(rows, n, j);
          assert t in BaseTuples(init);
        }
      }
    }
  }

  /** Whether a row lands on the base lane depends only on the rows before it. */
  lemma OnBasePrefix(rows: seq<Segment>, n: nat, j: nat)
    requires j < n <= |rows|
    ensures rows[..n][j] == rows[j]
    ensures OnBase(rows[..n], j) <==> OnBase(rows, j)
  {
    assert rows[..n][..j] == rows[..j];
  }

  /** The recorded segments: pairwise different, pairwise non-overlapping, and
      exactly the tuples of the rows that land on the base lane. */
  lemma RecordedPartition(rows: seq<Segment>)
    ensures forall p, q :: 0 <= p < q < |Dedup(BaseTuples(rows))| ==>
      Dedup(BaseTuples(rows))[p] != Dedup(BaseTuples(rows))[q]
    ensures forall p, q :: 0 <= p < q < |Dedup(BaseTuples(rows))| ==>
      !Overlaps(Dedup(BaseTuples(rows))[q].kmStart, Dedup(BaseTuples(rows))[q].kmEnd,
                Dedup(BaseTuples(rows))[p].kmStart, Dedup(BaseTuples(rows))[p].kmEnd)
    ensures forall t :: t in Dedup(BaseTuples(rows)) <==>
      exists j :: 0 <= j < |rows| && OnBase(rows, j) && t == TupleOf(rows[j])
  {
    var bt := BaseTuples(rows);
    var rec := Dedup(bt);
    DedupProperties(bt);
    BaseTuplesFromRows(rows);
    BaseTuplesDisjoint(rows);
    forall p, q | 0 <= p < q < |rec|
      ensures !Overlaps(rec[q].kmStart, rec[q].kmEnd, rec[p].kmStart, rec[p].kmEnd)
    {
      assert rec[p] in bt && rec[q] in bt;
      var a :| 0 <= a < |bt| && bt[a] == rec[p];
      var b :| 0 <= b < |bt| && bt[b] == rec[q];
      assert a != b;
    }
  }

  /** The table cleaned, ordered by start, and passed to the recording. The
      order among equal starts is not specified. */
  function StartKey(s: Segment): real
  {
    if s.kmStart.Some? then s.kmStart.value else 0.0
  }

  /** The `sort_values` call is the parameter `sortStart`; the record is
      stated for whichever order it gives to equal starts. */
  method RecordSuperstructure(raw: seq<Segment>, sortStart: seq<Segment> -> seq<Segment>)
    returns (recorded: seq<Troncon>)
    requires IsSort(sortStart, StartKey)
    ensures var rows := sortStart(Clean(raw));
      recorded == Dedup(BaseTuples(rows)) &&
      forall t :: t in recorded ==>
        t.kmStart <= t.kmEnd && t.kmEnd - t.kmStart <= 20.0 &&
        t.typRail != Some("CFF I") && t.typRail != Some("CFF IV")
  {
    var cleaned := Clean(raw);
    var rows := sortStart(cleaned);
    assert multiset(rows) == multiset(cleaned);
    recorded := EnregistrerTroncons(rows);
    DedupProperties(BaseTuples(rows));
    BaseTuplesFromRows(rows);
    forall t | t in recorded
      ensures t.kmStart <= t.kmEnd && t.kmEnd - t.kmStart <= 20.0 &&
        t.typRail != Some("CFF I") && t.typRail != Some("CFF IV")
    {
      var j :| 0 <= j < |rows| && OnBase(rows, j) && t == TupleOf(rows[j]);
      assert rows[j] in multiset(cleaned);
      var k :| 0 <= k < |cleaned| && cleaned[k] == rows[j];
      assert Cleaned(cleaned[k]);
    }
  }

  /** Two overlapping rows with the same start, in either order: the first
      one takes the base lane and the other does not, so the order a sort
      gives to equal starts decides what is recorded. */
  lemma TieOrderChangesBaseLane()
    ensures var x := Segment(Some(0.0), Some(5.0), None, None, None);
      var y := Segment(Some(0.0), Some(3.0), None, None, None);
      SortedBy([x, y], StartKey) && SortedBy([y, x], StartKey) &&
      BaseTuples([x, y]) == [TupleOf(x)] && BaseTuples([y, x]) == [TupleOf(y)]
  {
    var x := Segment(Some(0.0), Some(5.0), None, None, None);
    var y := Segment(Some(0.0), Some(3.0), None, None, None);
    assert [x, y][..1] == [x] && [y, x][..1] == [y];
    assert [x][..0] == [] && [y][..0] == [];
    assert BaseTuples([x]) == [TupleOf(x)] && BaseTuples([y]) == [TupleOf(y)];
    var ax := ActiveAfter([x]);
    var ay := ActiveAfter([y]);
    assert ax == [Placed(0.0, 5.0, 0)] && ay == [Placed(0.0, 3.0, 0)];
    assert ax[0].lane == 0 && Overlaps(0.0, 3.0, ax[0].start, ax[0].end);
    assert ay[0].lane == 0 && Overlaps(0.0, 5.0, ay[0].start, ay[0].end);
    FirstFreeSpec(ax, 0.0, 3.0, 0);
    FirstFreeSpec(ay, 0.0, 5.0, 0);
    assert !OnBase([x, y], 1) && !OnBase([y, x], 1);
  }
}
