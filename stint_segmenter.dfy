/**
 * `analyze_stints` of app20.py: drop the excluded laps, classify the rest
 * as pit laps or racing laps by a lap-time threshold, and cut the racing
 * laps into stints with their summary figures.
 *
 * The filtered frame keeps the index labels of the cleaned table, which
 * are the laps' positions in the unfiltered table. The source reads the
 * pit laps' labels and then uses them as positions of the filtered frame
 * (`iloc`); that is modelled as written by `WalkSpans` and `StintsFrom`.
 */
module StintSegmenter {
  import opened Wrappers
  import opened LapTableBuilder
  import opened StintStatistics

  /** A row of the filtered frame: its index label and its lap. */
  datatype LabeledLap = LabeledLap(index: nat, lap: LapRecord)

  /**
   * The positions [lo, hi) of the filtered frame that form one stint, and
   * the time of the pit lap that closed it (absent for the open stint).
   */
  datatype Span = Span(lo: nat, hi: nat, pitTime: Option<real>)

  /** One row of the stint table. Rounding of the figures is not modelled. */
  datatype StintRecord = StintRecord(
    number: nat,
    startLap: int,
    endLap: int,
    length: nat,
    minutes: real,
    bestLap: real,
    medianLap: real,
    pitTime: Option<real>)

  // ----- Exclusion -----

  /** The index labels of a frame strictly increase. */
  ghost predicate Increasing(frame: seq<LabeledLap>)
  {
    forall i, j :: 0 <= i < j < |frame| ==> frame[i].index < frame[j].index
  }

  /**
   * `lap_data[~lap_data["Lap Number"].isin(exclude_laps)]`: the laps whose
   * number is not excluded, in table order, each with its table position
   * as label.
   */
  function Retained(laps: seq<LapRecord>, excluded: set<int>): seq<LabeledLap>
    decreases |laps|
  {
    if laps == [] then []
    else
      var n := |laps| - 1;
      Retained(laps[..n], excluded) + (if laps[n].lapNumber in excluded then [] else [LabeledLap(n, laps[n])])
  }

  /** Every kept row is a lap of the table under its own position, and its number is not excluded. */
  lemma {:induction false} RetainedMembers(laps: seq<LapRecord>, excluded: set<int>)
    ensures var r := Retained(laps, excluded);
      && |r| <= |laps|
      && forall i :: 0 <= i < |r| ==>
           r[i].index < |laps| && r[i].lap == laps[r[i].index] && r[i].lap.lapNumber !in excluded
    decreases |laps|
  {
    if laps != [] {
      var n := |laps| - 1;
      RetainedMembers(laps[..n], excluded);
      var init := Retained(laps[..n], excluded);
      var r := Retained(laps, excluded);
      assert forall i :: 0 <= i < |init| ==> r[i] == init[i] && laps[..n][init[i].index] == laps[init[i].index];
    }
  }

  /** The filtered frame keeps the table order: its labels strictly increase. */
  lemma {:induction false} RetainedIncreasing(laps: seq<LapRecord>, excluded: set<int>)
    ensures Increasing(Retained(laps, excluded))
    decreases |laps|
  {
    if laps != [] {
      RetainedIncreasing(laps[..|laps| - 1], excluded);
      RetainedMembers(laps[..|laps| - 1], excluded);
    }
  }

  /** Every lap whose number is not excluded is kept, under its table position. */
  lemma {:induction false} RetainedCovers(laps: seq<LapRecord>, excluded: set<int>, k: nat)
    requires k < |laps| && laps[k].lapNumber !in excluded
    ensures LabeledLap(k, laps[k]) in Retained(laps, excluded)
    decreases |laps|
  {
    var n := |laps| - 1;
    if k < n {
      RetainedCovers(laps[..n], excluded, k);
    }
  }

  /** No lap of the table carries an excluded number. */
  ghost predicate NoneExcluded(laps: seq<LapRecord>, excluded: set<int>)
  {
    forall k :: 0 <= k < |laps| ==> laps[k].lapNumber !in excluded
  }

  /** With nothing excluded, the filtered frame is the whole table and every label is its position. */
  lemma {:induction false} RetainedAll(laps: seq<LapRecord>, excluded: set<int>)
    requires NoneExcluded(laps, excluded)
    ensures |Retained(laps, excluded)| == |laps|
    ensures forall i :: 0 <= i < |laps| ==> Retained(laps, excluded)[i] == LabeledLap(i, laps[i])
  {
    if laps != [] {
      RetainedAll(laps[..|laps| - 1], excluded);
    }
  }

  // ----- Pit laps -----

  /** `filtered[filtered["Lap Time"] > pit_threshold]`: the pit laps, in frame order. */
  function PitLaps(frame: seq<LabeledLap>, threshold: real): seq<LabeledLap>
  {
    if frame == [] then []
    else (if frame[0].lap.lapTime > threshold then [frame[0]] else []) + PitLaps(frame[1..], threshold)
  }

  /** The pit laps are exactly the rows of the frame slower than the threshold. */
  lemma {:induction false} PitLapsMembers(frame: seq<LabeledLap>, threshold: real)
    ensures forall e :: e in PitLaps(frame, threshold) <==> e in frame && e.lap.lapTime > threshold
  {
    if frame != [] {
      PitLapsMembers(frame[1..], threshold);
      assert frame == [frame[0]] + frame[1..];
    }
  }

  /** The pit laps keep the frame's order. */
  lemma {:induction false} PitLapsIncreasing(frame: seq<LabeledLap>, threshold: real)
    requires Increasing(frame)
    ensures Increasing(PitLaps(frame, threshold))
  {
    if frame != [] {
      PitLapsIncreasing(frame[1..], threshold);
      PitLapsMembers(frame[1..], threshold);
      var rest := PitLaps(frame[1..], threshold);
      forall e | e in rest ensures frame[0].index < e.index {
        var j :| 0 <= j < |frame[1..]| && frame[1..][j] == e;
        assert frame[j + 1] == e;
      }
    }
  }

  /** `filtered.loc[label]`: the lap carrying the given index label. */
  function LapAt(frame: seq<LabeledLap>, index: nat): Option<LapRecord>
  {
    if frame == [] then None
    else if frame[0].index == index then Some(frame[0].lap)
    else LapAt(frame[1..], index)
  }

  /** In a frame with increasing labels, `.loc` finds every row by its own label. */
  lemma {:induction false} LapAtLabel(frame: seq<LabeledLap>, e: LabeledLap)
    requires Increasing(frame)
    requires e in frame
    ensures LapAt(frame, e.index) == Some(e.lap)
  {
    if frame[0] != e {
      assert e in frame[1..];
      var j :| 0 <= j < |frame[1..]| && frame[1..][j] == e;
      assert frame[0].index < frame[j + 1].index;
      LapAtLabel(frame[1..], e);
    }
  }

  /** `.loc` finds each of the given rows under its label. */
  ghost predicate LabelsFound(frame: seq<LabeledLap>, rows: seq<LabeledLap>)
  {
    forall k :: 0 <= k < |rows| ==> LapAt(frame, rows[k].index) == Some(rows[k].lap)
  }

  /** In a frame with increasing labels, `.loc` finds each pit lap under its label. */
  lemma PitLapsFound(frame: seq<LabeledLap>, threshold: real)
    requires Increasing(frame)
    ensures LabelsFound(frame, PitLaps(frame, threshold))
  {
    var pits := PitLaps(frame, threshold);
    PitLapsMembers(frame, threshold);
    forall k | 0 <= k < |pits| ensures LapAt(frame, pits[k].index) == Some(pits[k].lap) {
      assert pits[k] in pits;
      LapAtLabel(frame, pits[k]);
    }
  }

  // ----- The walk as written -----

  /** Python's clamping of a non-negative slice bound to a length. */
  function Clamp(x: nat, m: nat): nat
  {
    if x < m then x else m
  }

  /** Number of laps covered by a sequence of spans. */
  function TotalLength(spans: seq<Span>): int
  {
    if spans == [] then 0 else (spans[0].hi as int - spans[0].lo as int) + TotalLength(spans[1..])
  }

  /** Valid spans of a frame of `m` rows: each non-empty and inside the frame. */
  ghost predicate Within(spans: seq<Span>, m: nat)
  {
    forall sp :: sp in spans ==> sp.lo < sp.hi <= m
  }

  /**
   * The loop of `analyze_stints` over the pit labels from the `i`-th on, on
   * a filtered frame of `m` rows: each pit label closes `iloc[start:label]`
   * (clamped) when that slice is non-empty and moves `start` past the
   * label; afterwards `iloc[start:]` is the open stint when `start < m`.
   */
  function WalkSpans(m: nat, pits: seq<LabeledLap>, i: nat, start: nat): seq<Span>
    requires i <= |pits|
    decreases |pits| - i
  {
    if i == |pits| then
      if start < m then [Span(start, m, None)] else []
    else
      var lo, hi := Clamp(start, m), Clamp(pits[i].index, m);
      var rest := WalkSpans(m, pits, i + 1, pits[i].index + 1);
      if lo < hi then [Span(lo, hi, Some(pits[i].lap.lapTime))] + rest else rest
  }

  /** Every stint the walk cuts is non-empty and inside the frame: `iloc` slices are clamped. */
  lemma {:induction false} WalkSpansWithin(m: nat, pits: seq<LabeledLap>, i: nat, start: nat)
    requires i <= |pits|
    ensures Within(WalkSpans(m, pits, i, start), m)
    decreases |pits| - i
  {
    if i < |pits| {
      WalkSpansWithin(m, pits, i + 1, pits[i].index + 1);
      var rest := WalkSpans(m, pits, i + 1, pits[i].index + 1);
      var lo, hi := Clamp(start, m), Clamp(pits[i].index, m);
      if lo < hi {
        var r := [Span(lo, hi, Some(pits[i].lap.lapTime))] + rest;
        assert forall k :: 1 <= k < |r| ==> r[k] == rest[k - 1];
      }
    }
  }

  /** The walk starts from a label no later than the next pit label, as the loop guarantees. */
  ghost predicate WalkReady(pits: seq<LabeledLap>, i: nat, start: nat)
  {
    && Increasing(pits)
    && i <= |pits|
    && (i < |pits| ==> start <= pits[i].index)
  }

  /** No span starts before position `x`. */
  ghost predicate StartsFrom(spans: seq<Span>, x: nat)
  {
    forall sp :: sp in spans ==> x <= sp.lo
  }

  /** The spans are in frame order and do not overlap. */
  ghost predicate Ordered(spans: seq<Span>)
  {
    forall a, b :: 0 <= a < b < |spans| ==> spans[a].hi <= spans[b].lo
  }

  /**
   * On increasing pit labels the stints come out in frame order, do not
   * overlap and start no earlier than `start`.
   */
  lemma {:induction false} WalkSpansOrdered(m: nat, pits: seq<LabeledLap>, i: nat, start: nat)
    requires WalkReady(pits, i, start)
    ensures StartsFrom(WalkSpans(m, pits, i, start), Clamp(start, m))
    ensures Ordered(WalkSpans(m, pits, i, start))
    decreases |pits| - i
  {
    if i < |pits| {
      if i + 1 < |pits| {
        assert pits[i].index < pits[i + 1].index;
      }
      WalkSpansOrdered(m, pits, i + 1, pits[i].index + 1);
      var rest := WalkSpans(m, pits, i + 1, pits[i].index + 1);
      var lo, hi := Clamp(start, m), Clamp(pits[i].index, m);
      assert hi <= Clamp(pits[i].index + 1, m);
      if lo < hi {
        var r := [Span(lo, hi, Some(pits[i].lap.lapTime))] + rest;
        assert WalkSpans(m, pits, i, start) == r;
        assert forall k :: 1 <= k < |r| ==> r[k] == rest[k - 1];
      }
    }
  }

  /** Every span except possibly the last was closed by a pit lap. */
  ghost predicate ClosedBeforeLast(spans: seq<Span>)
  {
    forall k :: 0 <= k < |spans| - 1 ==> spans[k].pitTime.Some?
  }

  /** A span without a pit time reaches the end of the frame: only the open stint lacks one. */
  ghost predicate OpenAtEnd(spans: seq<Span>, m: nat)
  {
    forall k :: 0 <= k < |spans| && spans[k].pitTime.None? ==> spans[k].hi == m
  }

  /** Every pit time of the spans is the lap time of one of the given pit laps. */
  ghost predicate PitTimesFrom(spans: seq<Span>, pits: seq<LabeledLap>)
  {
    forall k :: 0 <= k < |spans| && spans[k].pitTime.Some? ==>
      exists e :: e in pits && e.lap.lapTime == spans[k].pitTime.value
  }

  /**
   * Every stint the walk cuts, except possibly the last, was closed by a pit
   * lap, and a stint without a pit time runs to the end of the frame.
   */
  lemma {:induction false} WalkSpansClosed(m: nat, pits: seq<LabeledLap>, i: nat, start: nat)
    requires i <= |pits|
    ensures ClosedBeforeLast(WalkSpans(m, pits, i, start))
    ensures OpenAtEnd(WalkSpans(m, pits, i, start), m)
    decreases |pits| - i
  {
    if i < |pits| {
      WalkSpansClosed(m, pits, i + 1, pits[i].index + 1);
      var rest := WalkSpans(m, pits, i + 1, pits[i].index + 1);
      var lo, hi := Clamp(start, m), Clamp(pits[i].index, m);
      if lo < hi {
        var r := [Span(lo, hi, Some(pits[i].lap.lapTime))] + rest;
        assert forall k :: 1 <= k < |r| ==> r[k] == rest[k - 1];
      }
    }
  }

  /** The pit time of a closed stint is the lap time of one of the pit laps. */
  lemma {:induction false} WalkSpansPitTimes(m: nat, pits: seq<LabeledLap>, i: nat, start: nat)
    requires i <= |pits|
    ensures PitTimesFrom(WalkSpans(m, pits, i, start), pits)
    decreases |pits| - i
  {
    if i < |pits| {
      WalkSpansPitTimes(m, pits, i + 1, pits[i].index + 1);
      var rest := WalkSpans(m, pits, i + 1, pits[i].index + 1);
      var lo, hi := Clamp(start, m), Clamp(pits[i].index, m);
      if lo < hi {
        var r := [Span(lo, hi, Some(pits[i].lap.lapTime))] + rest;
        assert pits[i] in pits;
        forall k | 0 <= k < |r| && r[k].pitTime.Some?
          ensures exists e :: e in pits && e.lap.lapTime == r[k].pitTime.value
        {
          if k > 0 {
            assert r[k] == rest[k - 1];
          }
        }
      }
    }
  }

  /** The stints together hold no more laps than the frame has from the first start on. */
  lemma {:induction false} WalkSpansTotal(m: nat, pits: seq<LabeledLap>, i: nat, start: nat)
    requires WalkReady(pits, i, start)
    ensures TotalLength(WalkSpans(m, pits, i, start)) <= m - Clamp(start, m)
    decreases |pits| - i
  {
    if i < |pits| {
      if i + 1 < |pits| {
        assert pits[i].index < pits[i + 1].index;
      }
      WalkSpansTotal(m, pits, i + 1, pits[i].index + 1);
      var rest := WalkSpans(m, pits, i + 1, pits[i].index + 1);
      var lo, hi := Clamp(start, m), Clamp(pits[i].index, m);
      if lo < hi {
        assert ([Span(lo, hi, Some(pits[i].lap.lapTime))] + rest)[1..] == rest;
      }
    }
  }

  // ----- Stint figures -----

  /** The `Lap Time` column of a frame. */
  function LapTimes(frame: seq<LabeledLap>): (times: seq<real>)
    ensures |times| == |frame|
  {
    seq(|frame|, k requires 0 <= k < |frame| => frame[k].lap.lapTime)
  }

  /**
   * The figures of one stint, the rows at positions [lo, hi) of the frame:
   * its first and last lap numbers, its length, its total time in minutes,
   * its best and median lap and the time of the pit lap that closed it.
   */
  function Summary(frame: seq<LabeledLap>, sp: Span, number: nat): (st: StintRecord)
    requires sp.lo < sp.hi <= |frame|
    ensures st.number == number && st.pitTime == sp.pitTime
    ensures st.length == sp.hi - sp.lo >= 1
    ensures st.startLap == frame[sp.lo].lap.lapNumber && st.endLap == frame[sp.hi - 1].lap.lapNumber
  {
    var times := LapTimes(frame)[sp.lo..sp.hi];
    StintRecord(number, frame[sp.lo].lap.lapNumber, frame[sp.hi - 1].lap.lapNumber, sp.hi - sp.lo,
                Sum(times) / 60.0, Min(times), Median(times), sp.pitTime)
  }

  /**
   * The best lap of a stint is one of its laps and no slower than any of
   * them; the median lies between the best lap and the slowest lap; the
   * stint time is the sum of its lap times, in minutes.
   */
  lemma SummaryFigures(frame: seq<LabeledLap>, sp: Span, number: nat)
    requires sp.lo < sp.hi <= |frame|
    ensures var st := Summary(frame, sp, number);
      && (exists k :: sp.lo <= k < sp.hi && st.bestLap == frame[k].lap.lapTime)
      && (forall k :: sp.lo <= k < sp.hi ==> st.bestLap <= frame[k].lap.lapTime)
      && st.bestLap <= st.medianLap
      && (exists k :: sp.lo <= k < sp.hi && st.medianLap <= frame[k].lap.lapTime)
      && st.minutes * 60.0 == Sum(LapTimes(frame)[sp.lo..sp.hi])
  {
    var times := LapTimes(frame)[sp.lo..sp.hi];
    assert forall k :: 0 <= k < |times| ==> times[k] == frame[sp.lo + k].lap.lapTime;
    MinLeast(times);
    MaxGreatest(times);
    MedianBounds(times);
    var i :| 0 <= i < |times| && times[i] == Min(times);
    assert frame[sp.lo + i].lap.lapTime == Min(times);
    var j :| 0 <= j < |times| && times[j] == Max(times);
    assert frame[sp.lo + j].lap.lapTime == Max(times);
    forall k | sp.lo <= k < sp.hi ensures Min(times) <= frame[k].lap.lapTime {
      assert times[k - sp.lo] == frame[k].lap.lapTime;
    }
  }

  /** The stint table of a sequence of spans, numbered from `first`. */
  function Stints(frame: seq<LabeledLap>, spans: seq<Span>, first: nat): (r: seq<StintRecord>)
    requires Within(spans, |frame|)
    ensures |r| == |spans|
    decreases |spans|
  {
    if spans == [] then []
    else
      [Summary(frame, spans[0], first)] + Stints(frame, spans[1..], first + 1)
  }

  /** Stint `i` of the table summarises span `i` under number `first + i`. */
  lemma {:induction false} StintsAt(frame: seq<LabeledLap>, spans: seq<Span>, first: nat, i: nat)
    requires Within(spans, |frame|)
    requires i < |spans|
    ensures Stints(frame, spans, first)[i] == Summary(frame, spans[i], first + i)
    decreases i
  {
    if i > 0 {
      assert spans[1..][i - 1] == spans[i];
      StintsAt(frame, spans[1..], first + 1, i - 1);
    }
  }

  /** Total number of laps over a stint table. */
  function StintLaps(stints: seq<StintRecord>): int
  {
    if stints == [] then 0 else stints[0].length + StintLaps(stints[1..])
  }

  /** The lengths in a stint table add up to the laps its spans cover. */
  lemma {:induction false} StintLapsTotal(frame: seq<LabeledLap>, spans: seq<Span>, first: nat)
    requires Within(spans, |frame|)
    ensures StintLaps(Stints(frame, spans, first)) == TotalLength(spans)
    decreases |spans|
  {
    if spans != [] {
      StintLapsTotal(frame, spans[1..], first + 1);
    }
  }

  // ----- The stint table as written -----

  /**
   * The stint table that the loop of `analyze_stints` builds from pit label
   * `i` on, with the stint start at `start` and `number` the next stint
   * number; the pit time of a closed stint is the time of its pit lap.
   */
  function StintsFrom(frame: seq<LabeledLap>, pits: seq<LabeledLap>, i: nat, start: nat, number: nat): seq<StintRecord>
    requires i <= |pits|
    decreases |pits| - i
  {
    var m := |frame|;
    if i == |pits| then
      if start < m then [Summary(frame, Span(start, m, None), number)] else []
    else
      var lo, hi := Clamp(start, m), Clamp(pits[i].index, m);
      if lo < hi then
        [Summary(frame, Span(lo, hi, Some(pits[i].lap.lapTime)), number)]
          + StintsFrom(frame, pits, i + 1, pits[i].index + 1, number + 1)
      else StintsFrom(frame, pits, i + 1, pits[i].index + 1, number)
  }

  /**
   * One turn of the loop, for pit label `i`: the table built so far followed
   * by the rest of the walk stays the whole table after the turn appends at
   * most one stint.
   */
  lemma StintsFromAdvance(frame: seq<LabeledLap>, pits: seq<LabeledLap>, i: nat, start: nat, number: nat,
                          stints: seq<StintRecord>)
    requires i < |pits|
    ensures var lo, hi := Clamp(start, |frame|), Clamp(pits[i].index, |frame|);
      if lo < hi then
        (stints + [Summary(frame, Span(lo, hi, Some(pits[i].lap.lapTime)), number)])
          + StintsFrom(frame, pits, i + 1, pits[i].index + 1, number + 1)
        == stints + StintsFrom(frame, pits, i, start, number)
      else
        stints + StintsFrom(frame, pits, i + 1, pits[i].index + 1, number)
        == stints + StintsFrom(frame, pits, i, start, number)
  {
    var lo, hi := Clamp(start, |frame|), Clamp(pits[i].index, |frame|);
    if lo < hi {
      var st := Summary(frame, Span(lo, hi, Some(pits[i].lap.lapTime)), number);
      var later := StintsFrom(frame, pits, i + 1, pits[i].index + 1, number + 1);
      assert (stints + [st]) + later == stints + ([st] + later);
    }
  }

  /** The table the loop builds is the summary of the spans the walk cuts, numbered on. */
  lemma {:induction false} StintsFromSpans(frame: seq<LabeledLap>, pits: seq<LabeledLap>, i: nat, start: nat, number: nat)
    requires i <= |pits|
    ensures Within(WalkSpans(|frame|, pits, i, start), |frame|)
    ensures StintsFrom(frame, pits, i, start, number) == Stints(frame, WalkSpans(|frame|, pits, i, start), number)
    decreases |pits| - i
  {
    var m := |frame|;
    WalkSpansWithin(m, pits, i, start);
    if i < |pits| {
      var lo, hi := Clamp(start, m), Clamp(pits[i].index, m);
      if lo < hi {
        StintsFromSpans(frame, pits, i + 1, pits[i].index + 1, number + 1);
        var sp := Span(lo, hi, Some(pits[i].lap.lapTime));
        var rest := WalkSpans(m, pits, i + 1, pits[i].index + 1);
        assert ([sp] + rest)[1..] == rest;
      } else {
        StintsFromSpans(frame, pits, i + 1, pits[i].index + 1, number);
      }
    }
  }

  /** The spans the source cuts. */
  function AsWrittenSpans(laps: seq<LapRecord>, threshold: real, excluded: set<int>): seq<Span>
  {
    var frame := Retained(laps, excluded);
    WalkSpans(|frame|, PitLaps(frame, threshold), 0, 0)
  }

  /** The stint table the source returns. */
  function AsWrittenStints(laps: seq<LapRecord>, threshold: real, excluded: set<int>): seq<StintRecord>
  {
    var frame := Retained(laps, excluded);
    StintsFrom(frame, PitLaps(frame, threshold), 0, 0, 1)
  }

  /** The stint table the source returns summarises the spans it cuts, numbered from 1. */
  lemma AsWrittenStintsSpans(laps: seq<LapRecord>, threshold: real, excluded: set<int>)
    ensures Within(AsWrittenSpans(laps, threshold, excluded), |Retained(laps, excluded)|)
    ensures AsWrittenStints(laps, threshold, excluded)
         == Stints(Retained(laps, excluded), AsWrittenSpans(laps, threshold, excluded), 1)
  {
    var frame := Retained(laps, excluded);
    StintsFromSpans(frame, PitLaps(frame, threshold), 0, 0, 1);
  }

  /**
   * One turn of the loop of `analyze_stints`, for pit label `i`: the stint
   * `iloc[start:label]` is appended with the pit time read back by label
   * when it is non-empty, and the next stint starts after the label.
   */
  method CloseStint(frame: seq<LabeledLap>, pits: seq<LabeledLap>, i: nat, start: nat, number: nat,
                    stints: seq<StintRecord>)
    returns (stints': seq<StintRecord>, start': nat, number': nat)
    requires i < |pits| && LabelsFound(frame, pits)
    ensures start' == pits[i].index + 1
    ensures stints' + StintsFrom(frame, pits, i + 1, start', number') == stints + StintsFrom(frame, pits, i, start, number)
  {
    var m := |frame|;
    var pitIdx := pits[i].index;
    StintsFromAdvance(frame, pits, i, start, number, stints);
    var lo, hi := Clamp(start, m), Clamp(pitIdx, m);
    stints', number' := stints, number;
    if lo < hi {
      assert LapAt(frame, pitIdx) == Some(pits[i].lap);
      var pitLap := LapAt(frame, pitIdx).value;
      stints' := stints + [Summary(frame, Span(lo, hi, Some(pitLap.lapTime)), number)];
      number' := number + 1;
    }
    start' := pitIdx + 1;
  }

  /**
   * The loop and the final stint of `analyze_stints`, on the filtered frame
   * and its pit laps: each pit label closes the stint before it, and the
   * laps after the last pit lap form the open stint.
   */
  method CutStints(frame: seq<LabeledLap>, pits: seq<LabeledLap>) returns (stints: seq<StintRecord>)
    requires LabelsFound(frame, pits)
    ensures stints == StintsFrom(frame, pits, 0, 0, 1)
  {
    stints := [];
    var start: nat := 0;
    var number: nat := 1;
    for i := 0 to |pits|
      invariant stints + StintsFrom(frame, pits, i, start, number) == StintsFrom(frame, pits, 0, 0, 1)
    {
      stints, start, number := CloseStint(frame, pits, i, start, number, stints);
    }
    if start < |frame| {
      stints := stints + [Summary(frame, Span(start, |frame|, None), number)];
    } else {
      assert stints + [] == stints;
    }
  }

  /**
   * `analyze_stints(lap_data, pit_threshold, exclude_laps)`: returns the
   * stint table and the filtered frame.
   */
  method AnalyzeStints(laps: seq<LapRecord>, threshold: real, excluded: set<int>)
    returns (stints: seq<StintRecord>, filtered: seq<LabeledLap>)
    ensures filtered == Retained(laps, excluded)
    ensures stints == AsWrittenStints(laps, threshold, excluded)
  {
    filtered := Retained(laps, excluded);
    var pitIndices := PitLaps(filtered, threshold);
    RetainedIncreasing(laps, excluded);
    PitLapsFound(filtered, threshold);
    stints := CutStints(filtered, pitIndices);
  }
}
