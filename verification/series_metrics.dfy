/** The statistics of one series (Go's `Metrics`): a ring of recent event
    timestamps plus a sample count and the minimum, maximum, average and
    90th-percentile interval between consecutive events, all in integer
    nanoseconds. One writer applies `Update` per event. */
module SeriesMetrics {
  import opened Wrappers
  import opened Proto
  import opened SampleRing
  import opened Sorting

  /** Capacity of the ring of every series the calculator creates. */
  const MaxSamples: nat := 1000

  /** The percentile stored as `p90`. */
  const P90Percentile: nat := 90

  datatype Metrics = Metrics(
    targetId: string,
    key: string,
    metadata: Metadata,
    samples: Ring,
    count: nat,
    min: int,
    max: int,
    avg: int,
    p90: int)

  /** A series with no event yet: an empty ring of `capacity` elements and
      all statistics zero. */
  function NewMetrics(targetId: string, key: string, metadata: Metadata, capacity: nat): (m: Metrics)
    requires capacity > 0
    ensures Valid(m) && m.count == 0 && m.samples.Capacity() == capacity
    ensures m.targetId == targetId && m.key == key && m.metadata == metadata
  {
    Metrics(targetId, key, metadata, NewRing(capacity), 0, 0, 0, 0, 0)
  }

  // ---------------------------------------------------------------------
  // Invariants
  // ---------------------------------------------------------------------

  /** Shape of the ring as `Update` leaves it: before the first event it is
      empty; afterwards the cursor holds the newest timestamp, a filled
      element is followed by an empty one only at the cursor, and each step
      from a filled element to the next filled one (other than the step out
      of the cursor) is an interval that was observed, hence at most `max`. */
  predicate WellFormed(m: Metrics)
  {
    && m.samples.Valid()
    && (m.count == 0 ==> forall i :: 0 <= i < |m.samples.slots| ==> m.samples.slots[i].None?)
    && (m.count > 0 ==> m.samples.Latest().Some?)
    && 0 <= m.min <= m.avg <= m.max
    && (forall i :: (0 <= i < |m.samples.slots| && m.samples.slots[i].Some?
                     && m.samples.slots[m.samples.Next(i)].None?) ==> i == m.samples.cursor)
    && (forall i :: (0 <= i < |m.samples.slots| && i != m.samples.cursor
                     && m.samples.slots[i].Some? && m.samples.slots[m.samples.Next(i)].Some?) ==>
          m.samples.slots[m.samples.Next(i)].value - m.samples.slots[i].value <= m.max)
  }

  /** The invariant of every series: well formed and a non-negative p90. */
  predicate Valid(m: Metrics)
  {
    WellFormed(m) && 0 <= m.p90
  }

  /** Every held timestamp is at most the newest one: what a series fed
      non-decreasing timestamps satisfies. */
  predicate Monotone(m: Metrics)
    requires m.samples.Valid()
  {
    m.count > 0 && m.samples.Latest().Some? ==>
      forall i :: 0 <= i < |m.samples.slots| && m.samples.slots[i].Some? ==>
        m.samples.slots[i].value <= m.samples.Latest().value
  }

  /** `ts` is not earlier than the newest timestamp held. */
  predicate NotBefore(m: Metrics, ts: int)
    requires m.samples.Valid()
  {
    m.count > 0 && m.samples.Latest().Some? ==> m.samples.Latest().value <= ts
  }

  // ---------------------------------------------------------------------
  // Update
  // ---------------------------------------------------------------------

  /** Go's integer division, which truncates toward zero. */
  function TruncDiv(a: int, b: int): (q: int)
    requires b > 0
    ensures a >= 0 ==> 0 <= a - q * b < b
    ensures a < 0 ==> -b < a - q * b <= 0
  {
    if a >= 0 then a / b else -((-a) / b)
  }

  /** Go's incremental mean `(avg*count + d) / (count + 1)`, which folds
      the interval `d` into the mean `avg` of `count` intervals. */
  function IncrementalMean(avg: int, count: nat, d: int): int
  {
    TruncDiv(avg * count + d, count + 1)
  }

  /** The interval an event at `ts` contributes: its distance from the
      timestamp at the cursor, never negative; zero for the first event. */
  function Interval(m: Metrics, ts: int): (d: int)
    requires m.samples.Valid()
    ensures d >= 0
    ensures m.count > 0 && m.samples.Latest().Some? ==>
              d >= ts - m.samples.Latest().value
              && (d == 0 || d == ts - m.samples.Latest().value)
    ensures !(m.count > 0 && m.samples.Latest().Some?) ==> d == 0
  {
    if m.count > 0 && m.samples.Latest().Some? then
      var diff := ts - m.samples.Latest().value;
      if diff < 0 then 0 else diff
    else 0
  }

  /** Records `ts` and folds its interval into count, min, max and average;
      everything `Update` does before recomputing the percentile. */
  function Advance(m: Metrics, ts: int): (m': Metrics)
    requires m.samples.Valid()
    ensures m'.count == m.count + 1
    ensures m'.samples == Record(m.samples, ts)
    ensures m'.targetId == m.targetId && m'.key == m.key && m'.metadata == m.metadata
  {
    var d := Interval(m, ts);
    var samples := Record(m.samples, ts);
    if m.count == 0 then
      m.(samples := samples, min := d, max := d, avg := d, count := 1)
    else
      m.(samples := samples,
         min := if d < m.min then d else m.min,
         max := if d > m.max then d else m.max,
         avg := IncrementalMean(m.avg, m.count, d),
         count := m.count + 1)
  }

  /** Folds the event timestamp `ts` into the series. */
  function Update(m: Metrics, ts: int): (m': Metrics)
    requires m.samples.Valid()
    ensures m'.count == m.count + 1
    ensures m'.samples.Valid()
    ensures m'.samples.cursor == m.samples.Next(m.samples.cursor)
    ensures m'.samples.Latest() == Some(ts)
    ensures |m'.samples.slots| == |m.samples.slots|
    ensures forall i :: 0 <= i < |m.samples.slots| && i != m'.samples.cursor ==>
              m'.samples.slots[i] == m.samples.slots[i]
    ensures m'.targetId == m.targetId && m'.key == m.key && m'.metadata == m.metadata
    ensures m.count == 0 ==> m'.min == 0 && m'.max == 0 && m'.avg == 0 && m'.p90 == 0
    ensures m.count > 0 ==>
              && m'.min <= m.min && m'.max >= m.max
              && m'.min <= Interval(m, ts) <= m'.max
              && (m'.min == m.min || m'.min == Interval(m, ts))
              && (m'.max == m.max || m'.max == Interval(m, ts))
              && m'.avg == IncrementalMean(m.avg, m.count, Interval(m, ts))
    ensures m'.p90 == Percentile(Advance(m, ts), P90Percentile)
  {
    var m1 := Advance(m, ts);
    m1.(p90 := Percentile(m1, P90Percentile))
  }

  /** Applies `Update` for each timestamp of `ts` in order. */
  function UpdateAll(m: Metrics, ts: seq<int>): (m': Metrics)
    requires m.samples.Valid()
    ensures m'.samples.Valid() && m'.samples.Capacity() == m.samples.Capacity()
    ensures m'.count == m.count + |ts|
    ensures |ts| > 0 ==> m'.samples.Latest() == Some(ts[|ts| - 1])
    decreases |ts|
  {
    if |ts| == 0 then m else Update(UpdateAll(m, ts[..|ts| - 1]), ts[|ts| - 1])
  }

  // ---------------------------------------------------------------------
  // Percentile
  // ---------------------------------------------------------------------

  /** The timestamps met when stepping `n` times with `Next` from position
      `pos`, skipping empty elements; positions are revisited once `n`
      exceeds the capacity. */
  function Walk(slots: seq<Option<int>>, pos: nat, n: nat): (ts: seq<int>)
    requires pos < |slots|
    ensures |ts| <= n
    ensures forall x :: x in ts ==> Some(x) in slots
    decreases n
  {
    if n == 0 then []
    else
      (if slots[pos].Some? then [slots[pos].value] else [])
      + Walk(slots, if pos + 1 < |slots| then pos + 1 else 0, n - 1)
  }

  /** The difference between the `i`-th element of `w` and its predecessor. */
  function Gap(w: seq<int>, i: nat): int
    requires 1 <= i < |w|
  {
    w[i] - w[i - 1]
  }

  /** Every consecutive difference of `w` is at most `b`. */
  predicate GapsAtMost(w: seq<int>, b: int)
  {
    forall i :: 1 <= i < |w| ==> Gap(w, i) <= b
  }

  /** The non-negative differences of consecutive elements of `ts`, in order. */
  function NonNegGaps(ts: seq<int>): (d: seq<int>)
    ensures |ts| > 0 ==> |d| < |ts|
    ensures forall x :: x in d ==> x >= 0 && exists i :: 1 <= i < |ts| && x == Gap(ts, i)
    ensures forall i :: 1 <= i < |ts| && Gap(ts, i) >= 0 ==> Gap(ts, i) in d
    decreases |ts|
  {
    if |ts| < 2 then []
    else
      var init := ts[..|ts| - 1];
      var last := Gap(ts, |ts| - 1);
      assert forall i :: 1 <= i < |init| ==> Gap(init, i) == Gap(ts, i);
      NonNegGaps(init) + (if last >= 0 then [last] else [])
  }

  /** Position read off a sorted sample of `len` elements for percentile
      `p`: `floor((len-1)*p/100)`, clamped to the last position. */
  function RankIndex(len: nat, p: nat): (i: nat)
    requires len > 0
    ensures i < len
    ensures p <= 100 ==> i == (len - 1) * p / 100
  {
    var index := (len - 1) * p / 100;
    if index >= len then len - 1 else index
  }

  /** The intervals `calculatePercentile` collects: the non-negative
      differences of the timestamps met on a walk of `count` steps that
      starts at the newest element. */
  function CollectedGaps(m: Metrics): seq<int>
    requires m.samples.Valid()
  {
    NonNegGaps(Walk(m.samples.slots, m.samples.cursor, m.count))
  }

  /** `calculatePercentile`: the average while at most one event has been
      seen, zero when no non-negative difference is collected, and otherwise
      the element at `RankIndex` of the collected differences in ascending
      order. */
  function Percentile(m: Metrics, p: nat): (r: int)
    requires m.samples.Valid()
    ensures m.count <= 1 ==> r == m.avg
    ensures m.count > 1 && |CollectedGaps(m)| == 0 ==> r == 0
    ensures m.count > 1 && |CollectedGaps(m)| > 0 ==>
              && r in CollectedGaps(m)
              && r == SortSeq(CollectedGaps(m))[RankIndex(|CollectedGaps(m)|, p)]
  {
    if m.count <= 1 then m.avg
    else
      var samples := CollectedGaps(m);
      if |samples| == 0 then 0
      else
        var sorted := SortSeq(samples);
        var i := RankIndex(|sorted|, p);
        SortedMembers(samples, i);
        sorted[i]
  }

  // ---------------------------------------------------------------------
  // Lemmas
  // ---------------------------------------------------------------------

  lemma MulNonNeg(x: int, y: int)
    requires x >= 0 && y >= 0
    ensures x * y >= 0
  {
  }

  /** `x <= hi * b` implies `x / b <= hi`. */
  lemma DivAtMost(x: int, hi: int, b: int)
    requires b > 0 && x <= hi * b
    ensures x / b <= hi
  {
    var q := x / b;
    assert x == q * b + x % b;
    if q > hi {
      MulAtLeast(q - hi, b);
    }
  }

  /** `lo * b <= x` implies `lo <= x / b`. */
  lemma DivAtLeast(x: int, lo: int, b: int)
    requires b > 0 && lo * b <= x
    ensures lo <= x / b
  {
    var q := x / b;
    assert x == q * b + x % b;
    if q < lo {
      MulAtLeast(lo - q, b);
    }
  }

  /** The incremental mean stays between the new minimum and maximum. */
  lemma MeanBetween(avg: int, c: nat, d: int, lo: int, hi: int)
    requires 0 <= lo <= avg <= hi && lo <= d <= hi
    ensures lo <= IncrementalMean(avg, c, d) <= hi
  {
    MulNonNeg(avg - lo, c);
    MulNonNeg(hi - avg, c);
    assert (avg - lo) * c == avg * c - lo * c;
    assert (hi - avg) * c == hi * c - avg * c;
    assert lo * (c + 1) == lo * c + lo;
    assert hi * (c + 1) == hi * c + hi;
    MulNonNeg(avg, c);
    DivAtLeast(avg * c + d, lo, c + 1);
    DivAtMost(avg * c + d, hi, c + 1);
  }

  /** `Advance` keeps the series well formed. */
  lemma AdvanceWellFormed(m: Metrics, ts: int)
    requires WellFormed(m)
    ensures WellFormed(Advance(m, ts))
  {
    var m' := Advance(m, ts);
    if m.count > 0 {
      MeanBetween(m.avg, m.count, Interval(m, ts), m'.min, m'.max);
    }
    AdvanceKeepsGapsAtCursor(m, ts);
    AdvanceKeepsStepsObserved(m, ts);
  }

  /** After `Advance`, a filled element followed by an empty one is the cursor. */
  lemma AdvanceKeepsGapsAtCursor(m: Metrics, ts: int)
    requires WellFormed(m)
    ensures var r' := Advance(m, ts).samples;
      forall i :: (0 <= i < |r'.slots| && r'.slots[i].Some? && r'.slots[r'.Next(i)].None?) ==>
        i == r'.cursor
  {
  }

  /** After `Advance`, every step between neighbours other than out of the
      cursor is at most the new maximum. */
  lemma AdvanceKeepsStepsObserved(m: Metrics, ts: int)
    requires WellFormed(m)
    ensures var m' := Advance(m, ts); var r' := m'.samples;
      forall i :: (0 <= i < |r'.slots| && i != r'.cursor
                   && r'.slots[i].Some? && r'.slots[r'.Next(i)].Some?) ==>
        r'.slots[r'.Next(i)].value - r'.slots[i].value <= m'.max
  {
    var m' := Advance(m, ts);
    var r, r' := m.samples, m'.samples;
    forall i | 0 <= i < |r'.slots| && i != r'.cursor
        && r'.slots[i].Some? && r'.slots[r'.Next(i)].Some?
      ensures r'.slots[r'.Next(i)].value - r'.slots[i].value <= m'.max
    {
      assert r'.slots[i] == r.slots[i];
    }
  }

  /** Prepending `a` keeps all steps at most `b` when the first step is. */
  lemma ConsGaps(a: int, w: seq<int>, b: int)
    requires GapsAtMost(w, b)
    requires |w| > 0 ==> w[0] - a <= b
    ensures GapsAtMost([a] + w, b)
  {
    var v := [a] + w;
    forall i | 1 <= i < |v| ensures Gap(v, i) <= b {
      if i > 1 {
        assert Gap(v, i) == Gap(w, i - 1);
      }
    }
  }

  /** Every step of a walk over `r` rises by at most `b`, and only the step
      out of the cursor may land on an empty element. */
  predicate StepsBounded(r: Ring, b: int)
    requires r.Valid()
  {
    forall j, q :: 0 <= j < |r.slots| && 0 <= q < |r.slots| && r.slots[j].Some?
                   && (j == r.cursor || q == r.Next(j)) ==>
      && (r.slots[q].Some? ==> r.slots[q].value - r.slots[j].value <= b)
      && (r.slots[q].None? ==> j == r.cursor)
  }

  /** On a monotone series a step out of the cursor goes down (or stays
      level), and any other step is between neighbours and was observed. */
  lemma MonotoneStepsBounded(m: Metrics)
    requires WellFormed(m) && Monotone(m) && m.count > 0
    ensures StepsBounded(m.samples, m.max)
  {
  }

  /** Every step between consecutive timestamps of a walk whose steps are
      bounded by `b` is at most `b`, including the step from the element
      `j` the walk continues. */
  lemma {:induction false} WalkGapsBounded(r: Ring, b: int, j: nat, q: nat, n: nat)
    requires r.Valid() && StepsBounded(r, b) && 0 <= b
    requires j < |r.slots| && q < |r.slots|
    requires r.slots[j].Some?
    requires j == r.cursor || q == r.Next(j)
    ensures GapsAtMost([r.slots[j].value] + Walk(r.slots, q, n), b)
    decreases n
  {
    if n > 0 {
      var q' := r.Next(q);
      if r.slots[q].Some? {
        WalkGapsBounded(r, b, q, q', n - 1);
        PrependStep(r, q, n, r.slots[j].value, b);
      } else {
        WalkGapsBounded(r, b, j, q', n - 1);
        SkipEmpty(r, q, n, r.slots[j].value, b);
      }
    }
  }

  /** A walk that starts on a filled element `q` keeps its steps bounded
      when the element before it is at most `b` below. */
  lemma PrependStep(r: Ring, q: nat, n: nat, v: int, b: int)
    requires r.Valid() && q < |r.slots| && n > 0 && r.slots[q].Some?
    requires r.slots[q].value - v <= b
    requires GapsAtMost([r.slots[q].value] + Walk(r.slots, r.Next(q), n - 1), b)
    ensures GapsAtMost([v] + Walk(r.slots, q, n), b)
  {
    assert Walk(r.slots, q, n) == [r.slots[q].value] + Walk(r.slots, r.Next(q), n - 1);
    ConsGaps(v, Walk(r.slots, q, n), b);
  }

  /** A walk that starts on an empty element meets the same timestamps as
      the walk from the next element. */
  lemma SkipEmpty(r: Ring, q: nat, n: nat, v: int, b: int)
    requires r.Valid() && q < |r.slots| && n > 0 && r.slots[q].None?
    requires GapsAtMost([v] + Walk(r.slots, r.Next(q), n - 1), b)
    ensures GapsAtMost([v] + Walk(r.slots, q, n), b)
  {
    assert Walk(r.slots, q, n) == Walk(r.slots, r.Next(q), n - 1);
  }

  /** The values of the filled elements of `s`, in order. */
  function Present(s: seq<Option<int>>): seq<int>
    decreases |s|
  {
    if |s| == 0 then [] else (if s[0].Some? then [s[0].value] else []) + Present(s[1..])
  }

  /** The `n` elements met stepping forward from `pos`, wrapping around
      after the last element. */
  function Visit(slots: seq<Option<int>>, pos: nat, n: nat): seq<Option<int>>
    requires pos < |slots|
  {
    seq(n, k requires 0 <= k < n => slots[(pos + k) % |slots|])
  }

  /** A visit is its first element followed by the visit from the next one. */
  lemma VisitStep(slots: seq<Option<int>>, pos: nat, n: nat)
    requires pos < |slots| && n > 0
    ensures Visit(slots, pos, n)
            == [slots[pos]] + Visit(slots, if pos + 1 < |slots| then pos + 1 else 0, n - 1)
  {
    var len := |slots|;
    var next := if pos + 1 < len then pos + 1 else 0;
    ModSmall(pos, len);
    if pos + 1 < len {
      ModSmall(pos + 1, len);
    } else {
      DivModUnique(pos + 1, 1, 0, len);
    }
    var v, w := Visit(slots, pos, n), Visit(slots, next, n - 1);
    forall k | 0 <= k < n - 1
      ensures w[k] == v[k + 1]
    {
      ModAddLeft(pos + 1, k, len);
      assert pos + (k + 1) == pos + 1 + k;
    }
    assert v == [slots[pos]] + w;
  }

  /** The walk of `calculatePercentile` meets, in order and with repeats,
      the timestamps held in the `n` elements at positions `pos`, `pos + 1`,
      ... modulo the capacity. */
  lemma {:induction false} WalkVisitsInOrder(slots: seq<Option<int>>, pos: nat, n: nat)
    requires pos < |slots|
    ensures Walk(slots, pos, n) == Present(Visit(slots, pos, n))
    decreases n
  {
    if n > 0 {
      var next := if pos + 1 < |slots| then pos + 1 else 0;
      WalkVisitsInOrder(slots, next, n - 1);
      VisitStep(slots, pos, n);
      assert Visit(slots, pos, n)[1..] == Visit(slots, next, n - 1);
    }
  }

  /** The differences of consecutive elements of `ts`, in order. */
  function Diffs(ts: seq<int>): seq<int>
  {
    if |ts| < 2 then [] else seq(|ts| - 1, i requires 0 <= i < |ts| - 1 => ts[i + 1] - ts[i])
  }

  /** The non-negative elements of `s`, in order and with repeats. */
  function NonNeg(s: seq<int>): seq<int>
    decreases |s|
  {
    if |s| == 0 then [] else (if s[0] >= 0 then [s[0]] else []) + NonNeg(s[1..])
  }

  /** Filtering distributes over appending one element. */
  lemma {:induction false} NonNegSnoc(s: seq<int>, x: int)
    ensures NonNeg(s + [x]) == NonNeg(s) + (if x >= 0 then [x] else [])
    decreases |s|
  {
    var tail := if x >= 0 then [x] else [];
    if |s| == 0 {
      assert s + [x] == [x];
      assert [x][1..] == [];
      assert NonNeg([x]) == tail + NonNeg([]);
    } else {
      var t := s + [x];
      var head := if s[0] >= 0 then [s[0]] else [];
      assert t[0] == s[0];
      assert t[1..] == s[1..] + [x];
      NonNegSnoc(s[1..], x);
      assert NonNeg(t) == head + (NonNeg(s[1..]) + tail);
      assert NonNeg(s) == head + NonNeg(s[1..]);
      assert head + (NonNeg(s[1..]) + tail) == (head + NonNeg(s[1..])) + tail;
    }
  }

  /** The collected samples are the non-negative consecutive differences,
      in order and with repeats. */
  lemma {:induction false} NonNegGapsInOrder(ts: seq<int>)
    ensures NonNegGaps(ts) == NonNeg(Diffs(ts))
    decreases |ts|
  {
    if |ts| >= 2 {
      var init := ts[..|ts| - 1];
      var last := ts[|ts| - 1] - ts[|ts| - 2];
      NonNegGapsInOrder(init);
      DiffsSnoc(ts);
      NonNegSnoc(Diffs(init), last);
      var tail := if last >= 0 then [last] else [];
      calc {
        NonNegGaps(ts);
        NonNegGaps(init) + tail;
        NonNeg(Diffs(init)) + tail;
        NonNeg(Diffs(init) + [last]);
        NonNeg(Diffs(ts));
      }
    } else {
      assert Diffs(ts) == [];
      assert NonNeg([]) == [];
    }
  }

  /** The differences of `ts` are those of all but its last element, then
      the last step. */
  lemma DiffsSnoc(ts: seq<int>)
    requires |ts| >= 2
    ensures Diffs(ts) == Diffs(ts[..|ts| - 1]) + [ts[|ts| - 1] - ts[|ts| - 2]]
  {
    var init := ts[..|ts| - 1];
    var d, e := Diffs(ts), Diffs(init) + [ts[|ts| - 1] - ts[|ts| - 2]];
    assert |d| == |e|;
    forall i | 0 <= i < |d| ensures d[i] == e[i] {
      if i < |d| - 1 {
        assert init[i + 1] == ts[i + 1] && init[i] == ts[i];
      }
    }
  }

  /** What `calculatePercentile` sorts: the non-negative differences of
      consecutive timestamps among the `count` elements from the cursor on,
      in the order the walk meets them. */
  lemma CollectedGapsInOrder(m: Metrics)
    requires m.samples.Valid()
    ensures CollectedGaps(m)
            == NonNeg(Diffs(Present(Visit(m.samples.slots, m.samples.cursor, m.count))))
  {
    WalkVisitsInOrder(m.samples.slots, m.samples.cursor, m.count);
    NonNegGapsInOrder(Walk(m.samples.slots, m.samples.cursor, m.count));
  }

  /** The stored percentile is never negative. */
  lemma PercentileNonNegative(m: Metrics, p: nat)
    requires WellFormed(m)
    ensures Percentile(m, p) >= 0
  {
  }

  /** With timestamps held in order, every collected difference is an
      observed interval, so the percentile is at most `max`. */
  lemma PercentileAtMostMax(m: Metrics, p: nat)
    requires WellFormed(m) && Monotone(m) && m.count > 0
    ensures Percentile(m, p) <= m.max
  {
    if m.count > 1 {
      var r := m.samples;
      var w := Walk(r.slots, r.cursor, m.count);
      assert w == [r.slots[r.cursor].value] + Walk(r.slots, r.Next(r.cursor), m.count - 1);
      MonotoneStepsBounded(m);
      WalkGapsBounded(r, m.max, r.cursor, r.Next(r.cursor), m.count - 1);
    }
  }

  /** `Update` keeps every series valid. */
  lemma UpdateValid(m: Metrics, ts: int)
    requires Valid(m)
    ensures Valid(Update(m, ts))
  {
    AdvanceWellFormed(m, ts);
    PercentileNonNegative(Advance(m, ts), P90Percentile);
  }

  /** An update not earlier than the newest timestamp keeps the series
      monotone, and then the stored p90 is at most the stored max. */
  lemma UpdateInOrder(m: Metrics, ts: int)
    requires WellFormed(m) && Monotone(m) && NotBefore(m, ts)
    ensures Monotone(Update(m, ts))
    ensures Update(m, ts).p90 <= Update(m, ts).max
  {
    var m1 := Advance(m, ts);
    AdvanceWellFormed(m, ts);
    var r, r' := m.samples, m1.samples;
    forall i | 0 <= i < |r'.slots| && r'.slots[i].Some?
      ensures r'.slots[i].value <= ts
    {
      if i != r'.cursor {
        assert r'.slots[i] == r.slots[i];
      }
    }
    PercentileAtMostMax(m1, P90Percentile);
  }

  /** Timestamps in non-decreasing order. */
  predicate NonDecreasing(ts: seq<int>)
  {
    forall i, j :: 0 <= i < j < |ts| ==> ts[i] <= ts[j]
  }

  /** The ring of a series fed `ts` is the ring that recorded `ts`. */
  lemma {:induction false} UpdateAllSamples(m: Metrics, ts: seq<int>)
    requires m.samples.Valid()
    ensures UpdateAll(m, ts).samples == RecordAll(m.samples, ts)
    decreases |ts|
  {
    if |ts| > 0 {
      UpdateAllSamples(m, ts[..|ts| - 1]);
    }
  }

  /** The history of a series the calculator creates: after the events `ts`
      it is valid, counts `|ts|` events, holds the last timestamp at the
      cursor, keeps the zero minimum stored by its first event, and, when the
      timestamps arrive in order, its p90 is at most its max. */
  lemma {:induction false} FreshSeriesHistory(
    targetId: string, key: string, metadata: Metadata, capacity: nat, ts: seq<int>)
    requires capacity > 0
    ensures var m := UpdateAll(NewMetrics(targetId, key, metadata, capacity), ts);
      && Valid(m)
      && m.count == |ts|
      && (|ts| > 0 ==> m.min == 0 && m.samples.Latest() == Some(ts[|ts| - 1]))
      && (NonDecreasing(ts) ==> Monotone(m) && m.p90 <= m.max)
    decreases |ts|
  {
    var m0 := NewMetrics(targetId, key, metadata, capacity);
    if |ts| > 0 {
      var init := ts[..|ts| - 1];
      var t := ts[|ts| - 1];
      FreshSeriesHistory(targetId, key, metadata, capacity, init);
      var m1 := UpdateAll(m0, init);
      UpdateValid(m1, t);
      if NonDecreasing(ts) {
        assert NonDecreasing(init);
        if |init| > 0 {
          assert init[|init| - 1] <= t;
        }
        UpdateInOrder(m1, t);
      }
    }
  }

  /** One step of the incremental mean: the truncated mean of `c + 1`
      intervals times `c + 1` is at most the sum it was computed from. */
  lemma MeanStepAtMost(avg: int, c: nat, d: int, span: int, q: int)
    requires avg >= 0 && d >= 0 && avg * c <= span
    requires q == IncrementalMean(avg, c, d)
    ensures q * (c + 1) <= span + d
  {
    MulNonNeg(avg, c);
    var x := avg * c + d;
    assert x == (x / (c + 1)) * (c + 1) + x % (c + 1);
  }

  /** The running mean a series stores after the timestamps `ts`, computed
      from the timestamps alone: the first event contributes 0 and every
      later one its clamped distance from the one before, folded in with
      Go's truncating division. */
  function MeanHistory(ts: seq<int>): int
    decreases |ts|
  {
    if |ts| <= 1 then 0
    else
      var n := |ts|;
      var d := if ts[n - 1] - ts[n - 2] < 0 then 0 else ts[n - 1] - ts[n - 2];
      IncrementalMean(MeanHistory(ts[..n - 1]), n - 1, d)
  }

  /** The average a created series stores is the running mean of its
      timestamps. */
  lemma {:induction false} AvgIsMeanHistory(
    targetId: string, key: string, metadata: Metadata, capacity: nat, ts: seq<int>)
    requires capacity > 0
    ensures UpdateAll(NewMetrics(targetId, key, metadata, capacity), ts).avg == MeanHistory(ts)
    decreases |ts|
  {
    var m0 := NewMetrics(targetId, key, metadata, capacity);
    var n := |ts|;
    if n == 0 {
      assert UpdateAll(m0, ts) == m0;
    } else if n == 1 {
      AvgAfter(m0, ts);
    } else {
      AvgIsMeanHistory(targetId, key, metadata, capacity, ts[..n - 1]);
      AvgAfter(m0, ts);
      MeanHistoryStep(ts);
    }
  }

  /** The average after the last timestamp of `ts`, from the average before it. */
  lemma AvgAfter(m0: Metrics, ts: seq<int>)
    requires m0.samples.Valid() && m0.count == 0 && |ts| > 0
    ensures var n := |ts|;
      var m := UpdateAll(m0, ts);
      var m1 := UpdateAll(m0, ts[..n - 1]);
      && (n == 1 ==> m.avg == 0)
      && (n > 1 ==> m.avg == IncrementalMean(m1.avg, n - 1, if ts[n - 1] - ts[n - 2] < 0 then 0 else ts[n - 1] - ts[n - 2]))
  {
    var n := |ts|;
    var init := ts[..n - 1];
    var m1 := UpdateAll(m0, init);
    assert UpdateAll(m0, ts) == Update(m1, ts[n - 1]);
    if n > 1 {
      assert init[n - 2] == ts[n - 2];
      assert m1.count == n - 1;
      assert m1.samples.Latest() == Some(ts[n - 2]);
      AvgStep(m1, ts[n - 1], ts[n - 2]);
    }
  }

  /** One event after an earlier one at `prev` folds its clamped distance
      into the average. */
  lemma AvgStep(m: Metrics, t: int, prev: int)
    requires m.samples.Valid() && m.count > 0 && m.samples.Latest() == Some(prev)
    ensures Update(m, t).avg
            == IncrementalMean(m.avg, m.count, if t - prev < 0 then 0 else t - prev)
  {
    var d := Interval(m, t);
    assert d == if t - prev < 0 then 0 else t - prev;
    assert Update(m, t).avg == IncrementalMean(m.avg, m.count, d);
  }

  /** The running mean unfolds by its last timestamp. */
  lemma MeanHistoryStep(ts: seq<int>)
    requires |ts| >= 2
    ensures var n := |ts|;
      MeanHistory(ts)
      == IncrementalMean(MeanHistory(ts[..n - 1]), n - 1, if ts[n - 1] - ts[n - 2] < 0 then 0 else ts[n - 1] - ts[n - 2])
  {
  }

  /** With timestamps in order the running mean times the number of events
      is at most the time from the first timestamp to the last. */
  lemma {:induction false} MeanHistoryAtMostSpan(ts: seq<int>)
    requires |ts| > 0 && NonDecreasing(ts)
    ensures 0 <= MeanHistory(ts) && MeanHistory(ts) * |ts| <= ts[|ts| - 1] - ts[0]
    decreases |ts|
  {
    var n := |ts|;
    if n > 1 {
      var init := ts[..n - 1];
      assert NonDecreasing(init);
      MeanHistoryAtMostSpan(init);
      var prev, t := ts[n - 2], ts[n - 1];
      assert init[0] == ts[0] && init[n - 2] == prev;
      assert prev <= t;
      var a := MeanHistory(init);
      MeanStepAtMost(a, n - 1, t - prev, prev - ts[0], MeanHistory(ts));
      MulNonNeg(a, n - 1);
      DivAtLeast(a * (n - 1) + (t - prev), 0, n);
    }
  }

  /** With timestamps in order the stored average never overstates the
      mean: `avg * count` is at most the time from the first timestamp to
      the last. The first event's stored 0 counts as one of the averaged
      intervals, and each step truncates. */
  lemma AvgAtMostSpan(
    targetId: string, key: string, metadata: Metadata, capacity: nat, ts: seq<int>)
    requires capacity > 0 && |ts| > 0 && NonDecreasing(ts)
    ensures var m := UpdateAll(NewMetrics(targetId, key, metadata, capacity), ts);
      m.avg * m.count <= ts[|ts| - 1] - ts[0]
  {
    AvgIsMeanHistory(targetId, key, metadata, capacity, ts);
    MeanHistoryAtMostSpan(ts);
  }

  /** Two events 100 ms apart: the first stores an interval of 0 and the
      second one of 100 ms, so the stored average is 50 ms. */
  lemma TwoEventsAverageHalf(targetId: string, key: string, metadata: Metadata, t: int)
    ensures var m := UpdateAll(NewMetrics(targetId, key, metadata, MaxSamples), [t, t + 100_000_000]);
      m.count == 2 && m.min == 0 && m.max == 100_000_000 && m.avg == 50_000_000
  {
    var m0 := NewMetrics(targetId, key, metadata, MaxSamples);
    assert [t, t + 100_000_000][..1] == [t];
    assert [t][..0] == [];
    assert UpdateAll(m0, []) == m0;
    var m1 := UpdateAll(m0, [t]);
    assert m1 == Update(m0, t);
    assert Interval(m1, t + 100_000_000) == 100_000_000;
  }

  /** Stepping over empty elements only collects nothing. */
  lemma {:induction false} WalkOverEmpty(slots: seq<Option<int>>, q: nat, k: nat)
    requires q < |slots| && q + k <= |slots|
    requires forall i :: q <= i < q + k ==> slots[i].None?
    ensures Walk(slots, q, k) == []
    decreases k
  {
    if k > 0 && q + 1 < |slots| {
      WalkOverEmpty(slots, q + 1, k - 1);
    }
  }

  /** Because the walk starts at the newest element and moves on to the
      elements not yet written, a series the calculator creates reports a
      p90 of zero for as long as it has seen at most half its capacity of
      events (the first 500 events with the default ring), whatever the
      timestamps. */
  lemma EarlyP90IsZero(
    targetId: string, key: string, metadata: Metadata, capacity: nat, ts: seq<int>)
    requires capacity > 0 && 1 <= |ts| && 2 * |ts| <= capacity
    ensures UpdateAll(NewMetrics(targetId, key, metadata, capacity), ts).p90 == 0
  {
    var n := |ts|;
    var m0 := NewMetrics(targetId, key, metadata, capacity);
    if n > 1 {
      var m1 := UpdateAll(m0, ts[..n - 1]);
      var a := Advance(m1, ts[n - 1]);
      UpdateAllSamples(m0, ts);
      RecordAllKeepsNewest(capacity, ts);
      ModSmall(n, capacity);
      var slots := a.samples.slots;
      assert a.samples == UpdateAll(m0, ts).samples;
      assert a.samples.cursor == n;
      assert slots[n].Some?;
      WalkOverEmpty(slots, n + 1, n - 1);
      assert Walk(slots, n, n) == [slots[n].value];
    }
  }

  /** Two events where the second is earlier than the first leave min, max,
      avg and p90 of a new series all zero. */
  lemma EarlierSecondEventIsZero(
    targetId: string, key: string, metadata: Metadata, t1: int, t2: int)
    requires t2 < t1
    ensures var m := UpdateAll(NewMetrics(targetId, key, metadata, MaxSamples), [t1, t2]);
      m.count == 2 && m.min == 0 && m.max == 0 && m.avg == 0 && m.p90 == 0
  {
    var m0 := NewMetrics(targetId, key, metadata, MaxSamples);
    assert [t1, t2][..1] == [t1];
    assert [t1][..0] == [];
    assert UpdateAll(m0, []) == m0;
    var m1 := UpdateAll(m0, [t1]);
    assert m1 == Update(m0, t1);
    assert Interval(m1, t2) == 0;
    EarlyP90IsZero(targetId, key, metadata, MaxSamples, [t1, t2]);
  }
}
