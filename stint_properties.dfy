/**
 * What the stint table of `analyze_stints` promises, and the reference
 * definition it is measured against: a stint is a maximal run of laps no
 * slower than the pit threshold, counted over the positions of the
 * filtered frame.
 */
module StintProperties {
  import opened Wrappers
  import opened LapTableBuilder
  import opened StintStatistics
  import opened StintSegmenter

  // ----- The stint table as written -----

  /**
   * The spans the source cuts lie inside the filtered frame, in frame
   * order, without overlap; all but the last were closed by a pit lap, one
   * without a pit time runs to the end of the frame, and together they
   * cover no more laps than the frame holds.
   */
  lemma AsWrittenSpansShape(laps: seq<LapRecord>, threshold: real, excluded: set<int>)
    ensures Within(AsWrittenSpans(laps, threshold, excluded), |Retained(laps, excluded)|)
    ensures Ordered(AsWrittenSpans(laps, threshold, excluded))
    ensures ClosedBeforeLast(AsWrittenSpans(laps, threshold, excluded))
    ensures OpenAtEnd(AsWrittenSpans(laps, threshold, excluded), |Retained(laps, excluded)|)
    ensures TotalLength(AsWrittenSpans(laps, threshold, excluded)) <= |Retained(laps, excluded)|
  {
    var frame := Retained(laps, excluded);
    var pits := PitLaps(frame, threshold);
    RetainedIncreasing(laps, excluded);
    PitLapsIncreasing(frame, threshold);
    WalkSpansWithin(|frame|, pits, 0, 0);
    WalkSpansOrdered(|frame|, pits, 0, 0);
    WalkSpansClosed(|frame|, pits, 0, 0);
    WalkSpansTotal(|frame|, pits, 0, 0);
  }

  /** Every pit time in the stint table is the time of a retained lap slower than the threshold. */
  lemma AsWrittenPitTimes(laps: seq<LapRecord>, threshold: real, excluded: set<int>, k: nat)
    requires k < |AsWrittenSpans(laps, threshold, excluded)|
    requires AsWrittenSpans(laps, threshold, excluded)[k].pitTime.Some?
    ensures AsWrittenSpans(laps, threshold, excluded)[k].pitTime.value > threshold
    ensures exists e :: e in Retained(laps, excluded)
                     && e.lap.lapTime == AsWrittenSpans(laps, threshold, excluded)[k].pitTime.value
  {
    var frame := Retained(laps, excluded);
    var pits := PitLaps(frame, threshold);
    WalkSpansPitTimes(|frame|, pits, 0, 0);
    PitLapsMembers(frame, threshold);
  }

  /**
   * Stint `k` of the table is numbered `k + 1` and summarises span `k` of
   * the filtered frame: at least one lap, first and last lap numbers of the
   * slice, and the pit time of the span. The lengths add up to at most the
   * number of retained laps.
   */
  lemma AsWrittenStintAt(laps: seq<LapRecord>, threshold: real, excluded: set<int>, k: nat)
    requires k < |AsWrittenStints(laps, threshold, excluded)|
    ensures Within(AsWrittenSpans(laps, threshold, excluded), |Retained(laps, excluded)|)
    ensures |AsWrittenStints(laps, threshold, excluded)| == |AsWrittenSpans(laps, threshold, excluded)|
    ensures AsWrittenStints(laps, threshold, excluded)[k].number == k + 1
    ensures AsWrittenStints(laps, threshold, excluded)[k].length >= 1
    ensures AsWrittenStints(laps, threshold, excluded)[k].pitTime == AsWrittenSpans(laps, threshold, excluded)[k].pitTime
    ensures AsWrittenStints(laps, threshold, excluded)[k]
         == Summary(Retained(laps, excluded), AsWrittenSpans(laps, threshold, excluded)[k], k + 1)
    ensures StintLaps(AsWrittenStints(laps, threshold, excluded)) <= |Retained(laps, excluded)|
  {
    var frame := Retained(laps, excluded);
    var spans := AsWrittenSpans(laps, threshold, excluded);
    AsWrittenStintsSpans(laps, threshold, excluded);
    AsWrittenSpansShape(laps, threshold, excluded);
    StintsAt(frame, spans, 1, k);
    StintLapsTotal(frame, spans, 1);
  }

  /** A lap table ordered by lap number. */
  ghost predicate ByLapNumber(laps: seq<LapRecord>)
  {
    forall i, j :: 0 <= i < j < |laps| ==> laps[i].lapNumber <= laps[j].lapNumber
  }

  /** A filtered frame ordered by lap number. */
  ghost predicate FrameByLapNumber(frame: seq<LabeledLap>)
  {
    forall i, j :: 0 <= i < j < |frame| ==> frame[i].lap.lapNumber <= frame[j].lap.lapNumber
  }

  /** Filtering keeps a table ordered by lap number ordered. */
  lemma RetainedByLapNumber(laps: seq<LapRecord>, excluded: set<int>)
    requires ByLapNumber(laps)
    ensures FrameByLapNumber(Retained(laps, excluded))
  {
    RetainedMembers(laps, excluded);
    RetainedIncreasing(laps, excluded);
  }

  /**
   * Over a frame ordered by lap number, the stints of ordered spans each
   * start no later than they end and follow one another in lap order.
   */
  lemma StintsInOrder(frame: seq<LabeledLap>, spans: seq<Span>, first: nat)
    requires FrameByLapNumber(frame) && Within(spans, |frame|) && Ordered(spans)
    ensures forall k :: 0 <= k < |spans| ==>
      Stints(frame, spans, first)[k].startLap <= Stints(frame, spans, first)[k].endLap
    ensures forall a, b :: 0 <= a < b < |spans| ==>
      Stints(frame, spans, first)[a].endLap <= Stints(frame, spans, first)[b].startLap
  {
    var stints := Stints(frame, spans, first);
    forall k | 0 <= k < |spans| ensures stints[k].startLap <= stints[k].endLap {
      StintsAt(frame, spans, first, k);
    }
    forall a, b | 0 <= a < b < |spans| ensures stints[a].endLap <= stints[b].startLap {
      StintsAt(frame, spans, first, a);
      StintsAt(frame, spans, first, b);
    }
  }

  /**
   * On a table ordered by lap number, as `scrape_lap_data` returns it, each
   * stint starts no later than it ends and the stints follow one another in
   * lap order.
   */
  lemma AsWrittenStintsInOrder(laps: seq<LapRecord>, threshold: real, excluded: set<int>)
    requires ByLapNumber(laps)
    ensures forall k :: 0 <= k < |AsWrittenStints(laps, threshold, excluded)| ==>
      AsWrittenStints(laps, threshold, excluded)[k].startLap <= AsWrittenStints(laps, threshold, excluded)[k].endLap
    ensures forall a, b :: 0 <= a < b < |AsWrittenStints(laps, threshold, excluded)| ==>
      AsWrittenStints(laps, threshold, excluded)[a].endLap <= AsWrittenStints(laps, threshold, excluded)[b].startLap
  {
    AsWrittenStintsSpans(laps, threshold, excluded);
    AsWrittenSpansShape(laps, threshold, excluded);
    RetainedByLapNumber(laps, excluded);
    StintsInOrder(Retained(laps, excluded), AsWrittenSpans(laps, threshold, excluded), 1);
  }

  /** Without pit laps the whole non-empty filtered frame is one open stint numbered 1. */
  lemma NoPitSingleStint(laps: seq<LapRecord>, threshold: real, excluded: set<int>)
    requires forall e :: e in Retained(laps, excluded) ==> e.lap.lapTime <= threshold
    requires Retained(laps, excluded) != []
    ensures AsWrittenSpans(laps, threshold, excluded) == [Span(0, |Retained(laps, excluded)|, None)]
    ensures |AsWrittenStints(laps, threshold, excluded)| == 1
    ensures AsWrittenStints(laps, threshold, excluded)[0].number == 1
    ensures AsWrittenStints(laps, threshold, excluded)[0].length == |Retained(laps, excluded)|
    ensures AsWrittenStints(laps, threshold, excluded)[0].pitTime == None
  {
    var frame := Retained(laps, excluded);
    PitLapsMembers(frame, threshold);
    AsWrittenStintAt(laps, threshold, excluded, 0);
  }

  // ----- Reference: stints as maximal runs -----

  /**
   * The maximal runs of laps no slower than the threshold, scanning the
   * frame by position from `p`, with the current run starting at `start`:
   * a pit lap closes a non-empty run with its own time, and a run still
   * open at the end of the frame has no pit time.
   */
  function Segments(frame: seq<LabeledLap>, threshold: real, p: nat, start: nat): seq<Span>
    requires start <= p <= |frame|
    decreases |frame| - p
  {
    if p == |frame| then
      if start < p then [Span(start, p, None)] else []
    else if frame[p].lap.lapTime > threshold then
      (if start < p then [Span(start, p, Some(frame[p].lap.lapTime))] else []) + Segments(frame, threshold, p + 1, p + 1)
    else Segments(frame, threshold, p + 1, start)
  }

  /** Every position in [start, p) holds a racing lap. */
  ghost predicate RacingRun(frame: seq<LabeledLap>, threshold: real, start: nat, p: nat)
  {
    forall q :: start <= q < p && q < |frame| ==> frame[q].lap.lapTime <= threshold
  }

  /** Every lap of the span is a racing lap. */
  ghost predicate RacingSpan(frame: seq<LabeledLap>, threshold: real, sp: Span)
  {
    forall q :: sp.lo <= q < sp.hi && q < |frame| ==> frame[q].lap.lapTime <= threshold
  }

  /** Every lap inside a span is a racing lap. */
  ghost predicate RacingOnly(frame: seq<LabeledLap>, threshold: real, spans: seq<Span>)
  {
    forall sp :: sp in spans ==> RacingSpan(frame, threshold, sp)
  }

  /** Every racing lap from position `from` on lies inside some span. */
  ghost predicate CoversRacing(frame: seq<LabeledLap>, threshold: real, spans: seq<Span>, from: nat)
  {
    forall q :: from <= q < |frame| && frame[q].lap.lapTime <= threshold ==>
      exists sp :: sp in spans && sp.lo <= q < sp.hi
  }

  /** The span is bounded on each side by a pit lap or by an end of the frame. */
  ghost predicate MaximalSpan(frame: seq<LabeledLap>, threshold: real, sp: Span)
  {
    && (sp.lo == 0 || (sp.lo - 1 < |frame| && frame[sp.lo - 1].lap.lapTime > threshold))
    && (sp.hi == |frame| || (sp.hi < |frame| && frame[sp.hi].lap.lapTime > threshold))
  }

  /** Every span is bounded on each side by a pit lap or by an end of the frame. */
  ghost predicate Maximal(frame: seq<LabeledLap>, threshold: real, spans: seq<Span>)
  {
    forall sp :: sp in spans ==> MaximalSpan(frame, threshold, sp)
  }

  /** The span's pit time is the time of the lap right after it, absent when it reaches the end. */
  ghost predicate PitAfterSpan(frame: seq<LabeledLap>, sp: Span)
  {
    sp.pitTime == (if sp.hi < |frame| then Some(frame[sp.hi].lap.lapTime) else None)
  }

  /** Every span's pit time is the time of the lap right after it. */
  ghost predicate PitTimeAfter(frame: seq<LabeledLap>, spans: seq<Span>)
  {
    forall sp :: sp in spans ==> PitAfterSpan(frame, sp)
  }

  /** The runs lie inside the frame, start no earlier than the current run, and come in order. */
  lemma {:induction false} SegmentsShape(frame: seq<LabeledLap>, threshold: real, p: nat, start: nat)
    requires start <= p <= |frame|
    ensures Within(Segments(frame, threshold, p, start), |frame|)
    ensures StartsFrom(Segments(frame, threshold, p, start), start)
    ensures Ordered(Segments(frame, threshold, p, start))
    decreases |frame| - p
  {
    if p < |frame| {
      if frame[p].lap.lapTime > threshold {
        SegmentsShape(frame, threshold, p + 1, p + 1);
        var rest := Segments(frame, threshold, p + 1, p + 1);
        if start < p {
          var r := [Span(start, p, Some(frame[p].lap.lapTime))] + rest;
          assert forall k :: 1 <= k < |r| ==> r[k] == rest[k - 1];
        }
      } else {
        SegmentsShape(frame, threshold, p + 1, start);
      }
    }
  }

  /** The runs hold only racing laps, given that the current run so far does. */
  lemma {:induction false} SegmentsRacing(frame: seq<LabeledLap>, threshold: real, p: nat, start: nat)
    requires start <= p <= |frame|
    requires RacingRun(frame, threshold, start, p)
    ensures RacingOnly(frame, threshold, Segments(frame, threshold, p, start))
    decreases |frame| - p
  {
    if p < |frame| {
      if frame[p].lap.lapTime > threshold {
        SegmentsRacing(frame, threshold, p + 1, p + 1);
      } else {
        SegmentsRacing(frame, threshold, p + 1, start);
      }
    }
  }

  /** Every racing lap from the start of the current run on lies in some run. */
  lemma {:induction false} SegmentsCover(frame: seq<LabeledLap>, threshold: real, p: nat, start: nat)
    requires start <= p <= |frame|
    requires RacingRun(frame, threshold, start, p)
    ensures CoversRacing(frame, threshold, Segments(frame, threshold, p, start), start)
    decreases |frame| - p
  {
    if p == |frame| {
      if start < p {
        assert Span(start, p, None) in Segments(frame, threshold, p, start);
      }
    } else if frame[p].lap.lapTime > threshold {
      SegmentsCover(frame, threshold, p + 1, p + 1);
      if start < p {
        assert Span(start, p, Some(frame[p].lap.lapTime)) in Segments(frame, threshold, p, start);
      }
    } else {
      SegmentsCover(frame, threshold, p + 1, start);
    }
  }

  /**
   * Each run is bounded by pit laps or the ends of the frame, and carries
   * the time of the pit lap after it; given that the current run starts at
   * the beginning or after a pit lap.
   */
  lemma {:induction false} SegmentsMaximal(frame: seq<LabeledLap>, threshold: real, p: nat, start: nat)
    requires start <= p <= |frame|
    requires start == 0 || (start - 1 < |frame| && frame[start - 1].lap.lapTime > threshold)
    ensures Maximal(frame, threshold, Segments(frame, threshold, p, start))
    ensures PitTimeAfter(frame, Segments(frame, threshold, p, start))
    decreases |frame| - p
  {
    if p < |frame| {
      if frame[p].lap.lapTime > threshold {
        SegmentsMaximal(frame, threshold, p + 1, p + 1);
      } else {
        SegmentsMaximal(frame, threshold, p + 1, start);
      }
    }
  }

  /**
   * Counting from the start of the current run: the laps in runs plus the
   * pit laps from `p` on make up every lap.
   */
  lemma {:induction false} SegmentsCount(frame: seq<LabeledLap>, threshold: real, p: nat, start: nat)
    requires start <= p <= |frame|
    ensures TotalLength(Segments(frame, threshold, p, start)) + |PitLaps(frame[p..], threshold)| == |frame| - start
    decreases |frame| - p
  {
    if p < |frame| {
      assert frame[p..][0] == frame[p];
      assert frame[p..][1..] == frame[p + 1..];
      if frame[p].lap.lapTime > threshold {
        assert |PitLaps(frame[p..], threshold)| == 1 + |PitLaps(frame[p + 1..], threshold)|;
        SegmentsCount(frame, threshold, p + 1, p + 1);
        var rest := Segments(frame, threshold, p + 1, p + 1);
        if start < p {
          var sp := Span(start, p, Some(frame[p].lap.lapTime));
          assert Segments(frame, threshold, p, start) == [sp] + rest;
          assert ([sp] + rest)[1..] == rest;
          assert TotalLength([sp] + rest) == (p - start) + TotalLength(rest);
        } else {
          assert Segments(frame, threshold, p, start) == [] + rest;
          assert [] + rest == rest;
        }
      } else {
        SegmentsCount(frame, threshold, p + 1, start);
      }
    }
  }

  /** The reference stint spans of a filtered frame. */
  function ReferenceSpans(frame: seq<LabeledLap>, threshold: real): (spans: seq<Span>)
    ensures Within(spans, |frame|)
  {
    SegmentsShape(frame, threshold, 0, 0);
    Segments(frame, threshold, 0, 0)
  }

  /**
   * The reference spans partition the racing laps of the frame into
   * maximal runs in frame order, each closed by the pit lap after it;
   * their laps and the pit laps add up to the whole frame.
   */
  lemma ReferenceSpansPartition(frame: seq<LabeledLap>, threshold: real)
    ensures Ordered(ReferenceSpans(frame, threshold))
    ensures RacingOnly(frame, threshold, ReferenceSpans(frame, threshold))
    ensures CoversRacing(frame, threshold, ReferenceSpans(frame, threshold), 0)
    ensures Maximal(frame, threshold, ReferenceSpans(frame, threshold))
    ensures PitTimeAfter(frame, ReferenceSpans(frame, threshold))
    ensures TotalLength(ReferenceSpans(frame, threshold)) + |PitLaps(frame, threshold)| == |frame|
  {
    SegmentsShape(frame, threshold, 0, 0);
    SegmentsRacing(frame, threshold, 0, 0);
    SegmentsCover(frame, threshold, 0, 0);
    SegmentsMaximal(frame, threshold, 0, 0);
    SegmentsCount(frame, threshold, 0, 0);
    assert frame[0..] == frame;
  }

  /**
   * The stint table `analyze_stints` is meant to return: the reference
   * spans of the filtered frame, summarised and numbered from 1.
   */
  function CorrectedStints(laps: seq<LapRecord>, threshold: real, excluded: set<int>): seq<StintRecord>
  {
    var frame := Retained(laps, excluded);
    Stints(frame, ReferenceSpans(frame, threshold), 1)
  }

  /**
   * The corrected table: stint `k` is numbered `k + 1`, summarises the
   * `k`-th maximal run of racing laps, and has a pit time exactly when a
   * pit lap follows the run, that lap's time.
   */
  lemma CorrectedStintAt(laps: seq<LapRecord>, threshold: real, excluded: set<int>, k: nat)
    requires k < |CorrectedStints(laps, threshold, excluded)|
    ensures |CorrectedStints(laps, threshold, excluded)| == |ReferenceSpans(Retained(laps, excluded), threshold)|
    ensures CorrectedStints(laps, threshold, excluded)[k]
         == Summary(Retained(laps, excluded), ReferenceSpans(Retained(laps, excluded), threshold)[k], k + 1)
    ensures CorrectedStints(laps, threshold, excluded)[k].pitTime
         == ReferenceSpans(Retained(laps, excluded), threshold)[k].pitTime
    ensures PitTimeAfter(Retained(laps, excluded), ReferenceSpans(Retained(laps, excluded), threshold))
  {
    var frame := Retained(laps, excluded);
    SegmentsMaximal(frame, threshold, 0, 0);
    StintsAt(frame, ReferenceSpans(frame, threshold), 1, k);
  }

  // ----- The walk agrees with the reference when labels are positions -----

  /** Each row's label is its position in the frame. */
  ghost predicate Positional(frame: seq<LabeledLap>)
  {
    forall k :: 0 <= k < |frame| ==> frame[k].index == k
  }

  /** The walk from pit `i + 1` of `[x] + pits` is the walk from pit `i` of `pits`. */
  lemma {:induction false} WalkSpansShift(m: nat, x: LabeledLap, pits: seq<LabeledLap>, i: nat, start: nat)
    requires i <= |pits|
    ensures WalkSpans(m, [x] + pits, i + 1, start) == WalkSpans(m, pits, i, start)
    decreases |pits| - i
  {
    if i < |pits| {
      assert ([x] + pits)[i + 1] == pits[i];
      WalkSpansShift(m, x, pits, i + 1, pits[i].index + 1);
    }
  }

  /**
   * When labels are positions, walking the pit labels from `p` on cuts the
   * same spans as the scan over positions.
   */
  lemma {:induction false} WalkMatchesSegments(frame: seq<LabeledLap>, threshold: real, p: nat, start: nat)
    requires Positional(frame)
    requires start <= p <= |frame|
    ensures WalkSpans(|frame|, PitLaps(frame[p..], threshold), 0, start) == Segments(frame, threshold, p, start)
    decreases |frame| - p
  {
    if p < |frame| {
      assert frame[p..][0] == frame[p];
      assert frame[p..][1..] == frame[p + 1..];
      var tail := PitLaps(frame[p + 1..], threshold);
      if frame[p].lap.lapTime > threshold {
        assert PitLaps(frame[p..], threshold) == [frame[p]] + tail;
        WalkMatchesSegments(frame, threshold, p + 1, p + 1);
        WalkSpansShift(|frame|, frame[p], tail, 0, p + 1);
      } else {
        assert PitLaps(frame[p..], threshold) == tail;
        WalkMatchesSegments(frame, threshold, p + 1, start);
      }
    }
  }

  /**
   * With no lap excluded, labels are positions and `analyze_stints`
   * returns the reference table: its spans are the maximal runs of racing
   * laps.
   */
  lemma AsWrittenMatchesReference(laps: seq<LapRecord>, threshold: real, excluded: set<int>)
    requires NoneExcluded(laps, excluded)
    ensures AsWrittenSpans(laps, threshold, excluded) == ReferenceSpans(Retained(laps, excluded), threshold)
    ensures AsWrittenStints(laps, threshold, excluded) == CorrectedStints(laps, threshold, excluded)
  {
    var frame := Retained(laps, excluded);
    RetainedAll(laps, excluded);
    WalkMatchesSegments(frame, threshold, 0, 0);
    assert frame[0..] == frame;
    AsWrittenStintsSpans(laps, threshold, excluded);
  }

  /**
   * With no lap excluded, the laps of the analyser's stints plus its pit laps
   * account for every lap of the table.
   */
  lemma AsWrittenLapCount(laps: seq<LapRecord>, threshold: real, excluded: set<int>)
    requires NoneExcluded(laps, excluded)
    ensures StintLaps(AsWrittenStints(laps, threshold, excluded)) + |PitLaps(Retained(laps, excluded), threshold)| == |laps|
  {
    var frame := Retained(laps, excluded);
    RetainedAll(laps, excluded);
    AsWrittenMatchesReference(laps, threshold, excluded);
    AsWrittenStintsSpans(laps, threshold, excluded);
    StintLapsTotal(frame, AsWrittenSpans(laps, threshold, excluded), 1);
    ReferenceSpansPartition(frame, threshold);
  }

  // ----- Examples -----

  /** A lap whose only columns are its number and its time. */
  function Lap(number: int, time: real): LapRecord
  {
    LapRecord(number, None, None, time, None, None, time)
  }

  /**
   * Laps 1-5 timed 70, 72, 68, 95, 71 with threshold 80: laps 1-3 form
   * stint 1, closed by the 95-second lap 4, and lap 5 is the open stint 2.
   */
  lemma OnePitExample()
    ensures var stints := AsWrittenStints([Lap(1, 70.0), Lap(2, 72.0), Lap(3, 68.0), Lap(4, 95.0), Lap(5, 71.0)], 80.0, {});
      && |stints| == 2
      && stints[0].number == 1 && stints[0].startLap == 1 && stints[0].endLap == 3
      && stints[0].length == 3 && stints[0].pitTime == Some(95.0)
      && stints[1].number == 2 && stints[1].startLap == 5 && stints[1].endLap == 5
      && stints[1].length == 1 && stints[1].pitTime == None
  {
    var laps := [Lap(1, 70.0), Lap(2, 72.0), Lap(3, 68.0), Lap(4, 95.0), Lap(5, 71.0)];
    var frame := Retained(laps, {});
    RetainedAll(laps, {});
    assert frame == [LabeledLap(0, laps[0]), LabeledLap(1, laps[1]), LabeledLap(2, laps[2]),
                     LabeledLap(3, laps[3]), LabeledLap(4, laps[4])];
    assert AsWrittenSpans(laps, 80.0, {}) == [Span(0, 3, Some(95.0)), Span(4, 5, None)];
    AsWrittenStintAt(laps, 80.0, {}, 0);
    AsWrittenStintAt(laps, 80.0, {}, 1);
  }

  /**
   * Laps 1-4 timed 95, 96, 60, 62 with threshold 80: the two opening pit
   * laps close nothing, and laps 3-4 form the single open stint 1.
   */
  lemma LeadingPitsExample()
    ensures var stints := AsWrittenStints([Lap(1, 95.0), Lap(2, 96.0), Lap(3, 60.0), Lap(4, 62.0)], 80.0, {});
      && |stints| == 1
      && stints[0].number == 1 && stints[0].startLap == 3 && stints[0].endLap == 4
      && stints[0].length == 2 && stints[0].pitTime == None
  {
    var laps := [Lap(1, 95.0), Lap(2, 96.0), Lap(3, 60.0), Lap(4, 62.0)];
    var frame := Retained(laps, {});
    RetainedAll(laps, {});
    assert frame == [LabeledLap(0, laps[0]), LabeledLap(1, laps[1]), LabeledLap(2, laps[2]), LabeledLap(3, laps[3])];
    assert AsWrittenSpans(laps, 80.0, {}) == [Span(2, 4, None)];
    AsWrittenStintAt(laps, 80.0, {}, 0);
  }

  /** Laps 1-5 timed 70, 200, 72, 95, 71. */
  function ShiftLaps(): seq<LapRecord>
  {
    [Lap(1, 70.0), Lap(2, 200.0), Lap(3, 72.0), Lap(4, 95.0), Lap(5, 71.0)]
  }

  /** With lap 2 excluded, the 95-second lap 4 keeps its label 3 but sits at position 2. */
  lemma ShiftFrame()
    ensures Retained(ShiftLaps(), {2}) ==
      [LabeledLap(0, Lap(1, 70.0)), LabeledLap(2, Lap(3, 72.0)), LabeledLap(3, Lap(4, 95.0)), LabeledLap(4, Lap(5, 71.0))]
  {
    var laps := ShiftLaps();
    assert laps[..1][..0] == [] && laps[..2][..1] == laps[..1] && laps[..3][..2] == laps[..2];
    assert laps[..4][..3] == laps[..3] && laps[..5][..4] == laps[..4] && laps[..5] == laps;
    assert Retained(laps[..1], {2}) == [LabeledLap(0, laps[0])];
    assert Retained(laps[..2], {2}) == [LabeledLap(0, laps[0])];
    assert Retained(laps[..3], {2}) == [LabeledLap(0, laps[0]), LabeledLap(2, laps[2])];
    assert Retained(laps[..4], {2}) == [LabeledLap(0, laps[0]), LabeledLap(2, laps[2]), LabeledLap(3, laps[3])];
  }

  /**
   * Laps 1-5 timed 70, 200, 72, 95, 71, lap 2 excluded, threshold 80. The
   * pit lap 4 sits at position 2 of the filtered frame, yet its label 3 is
   * used as the end of `iloc[0:3]`, which swallows it into stint 1; `start`
   * then moves past the end and lap 5 belongs to no stint. The reference
   * spans are laps 1 and 3, closed by lap 4, then lap 5 on its own.
   */
  lemma ExclusionShiftExample()
    ensures |Retained(ShiftLaps(), {2})| == 4
    ensures Retained(ShiftLaps(), {2})[2].lap.lapNumber == 4
    ensures Retained(ShiftLaps(), {2})[2].lap.lapTime > 80.0
    ensures AsWrittenSpans(ShiftLaps(), 80.0, {2}) == [Span(0, 3, Some(95.0))]
    ensures ReferenceSpans(Retained(ShiftLaps(), {2}), 80.0) == [Span(0, 2, Some(95.0)), Span(3, 4, None)]
  {
    ShiftFrame();
    var frame := Retained(ShiftLaps(), {2});
    assert frame[1..][1..] == frame[2..] && frame[2..][1..] == frame[3..] && frame[3..][1..] == [];
    assert PitLaps(frame[3..], 80.0) == [];
    assert PitLaps(frame[2..], 80.0) == [frame[2]];
    var pits := PitLaps(frame, 80.0);
    assert pits == [frame[2]];
    assert WalkSpans(4, pits, 1, 4) == [];
    assert Segments(frame, 80.0, 3, 3) == [Span(3, 4, None)];
    assert Segments(frame, 80.0, 1, 0) == [Span(0, 2, Some(95.0)), Span(3, 4, None)];
  }
}
