/** The metrics calculator (Go's `MetricsCalculator`) run by a single
    sequential writer: a map from series key to series statistics, the
    bounded inbound event queue, and one bounded outbound buffer per
    subscriber. */
module Calculator {
  import opened Wrappers
  import opened Proto
  import opened SeriesMetrics

  /** Capacity of the inbound event channel. */
  const EventQueueCapacity: nat := 1000

  /** Capacity of each subscriber's update channel. */
  const SubscriberBufferCapacity: nat := 100

  const QueueFullError: string := "event queue full"

  /** Identity of a subscriber channel. */
  type SubscriberId = nat

  datatype MetricsCalculator = MetricsCalculator(
    metrics: map<string, Metrics>,
    events: seq<Event>,
    subscribers: map<SubscriberId, seq<MetricsUpdate>>)

  /** What every reachable calculator satisfies: queue and buffers within
      their capacities, and every series valid with the default ring. */
  predicate Consistent(c: MetricsCalculator)
  {
    && |c.events| <= EventQueueCapacity
    && (forall id :: id in c.subscribers ==> |c.subscribers[id]| <= SubscriberBufferCapacity)
    && (forall k :: k in c.metrics ==>
          SeriesMetrics.Valid(c.metrics[k]) && c.metrics[k].samples.Capacity() == MaxSamples)
  }

  /** `NewMetricsCalculator`: no series, no queued event, no subscriber. */
  function NewMetricsCalculator(): (c: MetricsCalculator)
    ensures Consistent(c)
    ensures c.metrics == map[] && c.events == [] && c.subscribers == map[]
  {
    MetricsCalculator(map[], [], map[])
  }

  // ---------------------------------------------------------------------
  // Series identity
  // ---------------------------------------------------------------------

  /** One `":k=v"` per metadata pair, in iteration order. */
  function MetadataSuffix(metadata: Metadata): (s: string)
    ensures |metadata| == 0 <==> s == ""
    ensures |metadata| > 0 ==> s[0] == ':'
    ensures |metadata| == 1 ==> s == ":" + metadata[0].0 + "=" + metadata[0].1
  {
    if |metadata| == 0 then ""
    else ":" + metadata[0].0 + "=" + metadata[0].1 + MetadataSuffix(metadata[1..])
  }

  /** The map key of the series an event belongs to:
      `target:key` followed by the metadata suffix. */
  function SeriesKey(e: Event): (s: string)
    ensures e.targetId + ":" + e.key <= s
    ensures |e.metadata| == 0 ==> s == e.targetId + ":" + e.key
    ensures |e.metadata| > 0 ==> |s| > |e.targetId| + 1 + |e.key| && s[|e.targetId| + 1 + |e.key|] == ':'
  {
    e.targetId + ":" + e.key + MetadataSuffix(e.metadata)
  }

  /** The suffix of metadata met in two runs is the two suffixes joined. */
  lemma {:induction false} MetadataSuffixAppend(a: Metadata, b: Metadata)
    ensures MetadataSuffix(a + b) == MetadataSuffix(a) + MetadataSuffix(b)
    decreases |a|
  {
    if |a| == 0 {
      assert a + b == b;
    } else {
      var head := ":" + a[0].0 + "=" + a[0].1;
      assert (a + b)[1..] == a[1..] + b;
      assert (a + b)[0] == a[0];
      MetadataSuffixAppend(a[1..], b);
      assert MetadataSuffix(a + b) == head + MetadataSuffix(a[1..] + b);
      assert MetadataSuffix(a) == head + MetadataSuffix(a[1..]);
    }
  }

  /** Meeting one more metadata pair appends its `:k=v` to the series key. */
  lemma SeriesKeyAppendPair(e: Event, k: string, v: string)
    ensures SeriesKey(e.(metadata := e.metadata + [(k, v)])) == SeriesKey(e) + ":" + k + "=" + v
  {
    MetadataSuffixAppend(e.metadata, [(k, v)]);
  }

  /** Two values of one metadata key give two series: the metadata text is
      part of the key. */
  lemma MetadataValueSplitsSeries(e: Event, k: string, v1: string, v2: string)
    requires v1 != v2
    ensures SeriesKey(e.(metadata := e.metadata + [(k, v1)]))
         != SeriesKey(e.(metadata := e.metadata + [(k, v2)]))
  {
    SeriesKeyAppendPair(e, k, v1);
    SeriesKeyAppendPair(e, k, v2);
    var head := SeriesKey(e) + ":" + k + "=";
    assert (head + v1)[|head|..] == v1;
    assert (head + v2)[|head|..] == v2;
  }

  /** The same metadata map met in two iteration orders gives two series
      keys, so one logical series can be split in two. */
  lemma IterationOrderSplitsSeries(target: string, key: string, ts: int, size: int)
    ensures var e1 := Event(target, key, ts, size, [("a", "1"), ("b", "2")]);
      var e2 := Event(target, key, ts, size, [("b", "2"), ("a", "1")]);
      SeriesKey(e1) != SeriesKey(e2)
  {
    var e1 := Event(target, key, ts, size, [("a", "1"), ("b", "2")]);
    var e2 := Event(target, key, ts, size, [("b", "2"), ("a", "1")]);
    var n := |target| + 1 + |key|;
    assert MetadataSuffix(e1.metadata) == ":a=1:b=2";
    assert MetadataSuffix(e2.metadata) == ":b=2:a=1";
    assert SeriesKey(e1)[n + 1] == 'a';
    assert SeriesKey(e2)[n + 1] == 'b';
  }

  /** The part of a series key before its first colon. */
  function TargetOf(s: string): (t: string)
    ensures ':' !in t
    ensures |t| <= |s| && t == s[..|t|]
  {
    if |s| == 0 || s[0] == ':' then ""
    else [s[0]] + TargetOf(s[1..])
  }

  /** For a target without a colon, the target is recovered from the key;
      so events of two such targets never share a series. */
  lemma {:induction false} TargetOfSeriesKey(target: string, rest: string)
    requires ':' !in target
    ensures TargetOf(target + ":" + rest) == target
    decreases |target|
  {
    if |target| > 0 {
      assert (target + ":" + rest)[1..] == target[1..] + ":" + rest;
      TargetOfSeriesKey(target[1..], rest);
    } else {
      assert (target + ":" + rest)[0] == ':';
    }
  }

  /** Events of different colon-free targets have different series keys. */
  lemma DistinctTargetsDistinctSeries(e1: Event, e2: Event)
    requires ':' !in e1.targetId && ':' !in e2.targetId
    requires e1.targetId != e2.targetId
    ensures SeriesKey(e1) != SeriesKey(e2)
  {
    TargetOfSeriesKey(e1.targetId, e1.key + MetadataSuffix(e1.metadata));
    TargetOfSeriesKey(e2.targetId, e2.key + MetadataSuffix(e2.metadata));
    assert SeriesKey(e1) == e1.targetId + ":" + (e1.key + MetadataSuffix(e1.metadata));
    assert SeriesKey(e2) == e2.targetId + ":" + (e2.key + MetadataSuffix(e2.metadata));
  }

  /** The key part of a series key: with a colon-free key, reading up to
      the next colon after the target recovers it, whatever the metadata. */
  lemma {:induction false} TargetOfKeyAndSuffix(key: string, suffix: string)
    requires ':' !in key
    requires suffix == "" || suffix[0] == ':'
    ensures TargetOf(key + suffix) == key
    decreases |key|
  {
    if |key| > 0 {
      assert (key + suffix)[1..] == key[1..] + suffix;
      TargetOfKeyAndSuffix(key[1..], suffix);
    } else {
      assert key + suffix == suffix;
    }
  }

  /** Events of one target with different colon-free keys have different
      series keys, whatever their metadata: so events spread over n such
      keys of one target make n series. */
  lemma DistinctKeysDistinctSeries(e1: Event, e2: Event)
    requires e1.targetId == e2.targetId
    requires ':' !in e1.key && ':' !in e2.key
    requires e1.key != e2.key
    ensures SeriesKey(e1) != SeriesKey(e2)
  {
    var head := e1.targetId + ":";
    var rest1 := e1.key + MetadataSuffix(e1.metadata);
    var rest2 := e2.key + MetadataSuffix(e2.metadata);
    assert SeriesKey(e1) == head + rest1;
    assert SeriesKey(e2) == head + rest2;
    TargetOfKeyAndSuffix(e1.key, MetadataSuffix(e1.metadata));
    TargetOfKeyAndSuffix(e2.key, MetadataSuffix(e2.metadata));
    assert (head + rest1)[|head|..] == rest1;
    assert (head + rest2)[|head|..] == rest2;
  }

  /** The series key of the calculator test's event with metadata
      `tier: test`. */
  lemma TierTestSeriesKey(ts: int, size: int)
    ensures SeriesKey(Event("test-target", "test-key", ts, size, [("tier", "test")]))
         == "test-target:test-key:tier=test"
  {
  }

  /** `getOrCreateMetrics`: the series stored under the event's key, or a
      fresh one (default ring, no event yet) inserted under that key. */
  function GetOrCreate(metrics: map<string, Metrics>, e: Event): (r: (map<string, Metrics>, Metrics))
    ensures SeriesKey(e) in r.0 && r.0[SeriesKey(e)] == r.1
    ensures r.0.Keys == metrics.Keys + {SeriesKey(e)}
    ensures forall k :: k in metrics ==> r.0[k] == metrics[k]
    ensures SeriesKey(e) !in metrics ==>
              r.1 == NewMetrics(e.targetId, e.key, e.metadata, MaxSamples)
  {
    var key := SeriesKey(e);
    if key in metrics then (metrics, metrics[key])
    else
      var m := NewMetrics(e.targetId, e.key, e.metadata, MaxSamples);
      (metrics[key := m], m)
  }

  // ---------------------------------------------------------------------
  // Fan-in and fan-out
  // ---------------------------------------------------------------------

  /** `ProcessEvent`: a non-blocking send on the event channel. */
  function ProcessEvent(c: MetricsCalculator, e: Event): (r: Result<MetricsCalculator, string>)
    ensures r.Success? <==> |c.events| < EventQueueCapacity
    ensures r.Success? ==> r.value == c.(events := c.events + [e])
    ensures r.Failure? ==> r.error == QueueFullError
  {
    if |c.events| < EventQueueCapacity then Success(c.(events := c.events + [e]))
    else Failure(QueueFullError)
  }

  /** `Subscribe`: registers a new, empty channel under a fresh identity. */
  function Subscribe(c: MetricsCalculator, id: SubscriberId): (c': MetricsCalculator)
    requires id !in c.subscribers
    ensures c'.subscribers.Keys == c.subscribers.Keys + {id}
    ensures c'.subscribers[id] == []
    ensures forall other :: other in c.subscribers ==> c'.subscribers[other] == c.subscribers[other]
    ensures c'.metrics == c.metrics && c'.events == c.events
  {
    c.(subscribers := c.subscribers[id := []])
  }

  /** `Unsubscribe`: removes (and closes) a registered channel. */
  function Unsubscribe(c: MetricsCalculator, id: SubscriberId): (c': MetricsCalculator)
    requires id in c.subscribers
    ensures c'.subscribers.Keys == c.subscribers.Keys - {id}
    ensures forall other :: other in c'.subscribers ==> c'.subscribers[other] == c.subscribers[other]
    ensures c'.metrics == c.metrics && c'.events == c.events
  {
    c.(subscribers := c.subscribers - {id})
  }

  /** Subscribing and then unsubscribing the same channel changes nothing. */
  lemma SubscribeThenUnsubscribe(c: MetricsCalculator, id: SubscriberId)
    requires id !in c.subscribers
    ensures Unsubscribe(Subscribe(c, id), id) == c
  {
    assert Unsubscribe(Subscribe(c, id), id).subscribers == c.subscribers;
  }

  /** `notifySubscribers`: a non-blocking send of `u` to every channel; a
      channel already holding its capacity silently misses this update. */
  function NotifySubscribers(subs: map<SubscriberId, seq<MetricsUpdate>>, u: MetricsUpdate)
    : (r: map<SubscriberId, seq<MetricsUpdate>>)
    ensures r.Keys == subs.Keys
    ensures forall id :: id in subs && |subs[id]| < SubscriberBufferCapacity ==> r[id] == subs[id] + [u]
    ensures forall id :: id in subs && |subs[id]| >= SubscriberBufferCapacity ==> r[id] == subs[id]
  {
    map id | id in subs ::
      if |subs[id]| < SubscriberBufferCapacity then subs[id] + [u] else subs[id]
  }

  /** No subscriber buffer ever grows beyond its capacity. */
  lemma NotifyKeepsBuffersBounded(subs: map<SubscriberId, seq<MetricsUpdate>>, u: MetricsUpdate)
    requires forall id :: id in subs ==> |subs[id]| <= SubscriberBufferCapacity
    ensures forall id :: id in NotifySubscribers(subs, u) ==>
              |NotifySubscribers(subs, u)[id]| <= SubscriberBufferCapacity
  {
  }

  // ---------------------------------------------------------------------
  // The per-event step of the run loop
  // ---------------------------------------------------------------------

  /** Handles one event taken off the queue: get-or-create its series,
      update it, build the update record stamped `now`, and fan it out. */
  function HandleEvent(c: MetricsCalculator, e: Event, now: int): (r: (MetricsCalculator, MetricsUpdate))
    requires forall k :: k in c.metrics ==> c.metrics[k].samples.Valid()
    ensures var key := SeriesKey(e); var c' := r.0;
      && key in c'.metrics
      && c'.metrics.Keys == c.metrics.Keys + {key}
      && (forall k :: k in c.metrics && k != key ==> c'.metrics[k] == c.metrics[k])
      && c'.metrics[key].count == (if key in c.metrics then c.metrics[key].count else 0) + 1
      && c'.metrics[key] == Update(if key in c.metrics then c.metrics[key]
                                   else NewMetrics(e.targetId, e.key, e.metadata, MaxSamples),
                                   e.serverTimestamp)
      && c'.events == c.events
      && c'.subscribers == NotifySubscribers(c.subscribers, r.1)
    ensures var m := r.0.metrics[SeriesKey(e)];
      r.1 == MetricsUpdate(e.targetId, e.key, m.min, m.max, m.avg, m.p90, m.count, now, e.metadata)
  {
    var (metrics, m) := GetOrCreate(c.metrics, e);
    var m' := Update(m, e.serverTimestamp);
    var u := MetricsUpdate(e.targetId, e.key, m'.min, m'.max, m'.avg, m'.p90, m'.count, now, e.metadata);
    (c.(metrics := metrics[SeriesKey(e) := m'],
        subscribers := NotifySubscribers(c.subscribers, u)), u)
  }

  /** One iteration of the run loop that receives an event: the oldest
      queued event is removed, its series (reused or created) is updated
      with it, no other series changes, and the resulting update stamped
      `now` is fanned out to the subscribers. (With an empty queue the loop
      blocks, so there is no step.) */
  function Step(c: MetricsCalculator, now: int): (r: MetricsCalculator)
    requires |c.events| > 0
    requires forall k :: k in c.metrics ==> c.metrics[k].samples.Valid()
    ensures r.events == c.events[1..]
    ensures SeriesKey(c.events[0]) in r.metrics
    ensures r.metrics.Keys == c.metrics.Keys + {SeriesKey(c.events[0])}
    ensures var e := c.events[0]; var key := SeriesKey(e);
      && r.metrics[key] == Update(if key in c.metrics then c.metrics[key]
                                  else NewMetrics(e.targetId, e.key, e.metadata, MaxSamples),
                                  e.serverTimestamp)
      && (forall k :: k in c.metrics && k != key ==> r.metrics[k] == c.metrics[k])
    ensures var e := c.events[0]; var m := r.metrics[SeriesKey(e)];
      r.subscribers == NotifySubscribers(c.subscribers,
        MetricsUpdate(e.targetId, e.key, m.min, m.max, m.avg, m.p90, m.count, now, e.metadata))
  {
    HandleEvent(c.(events := c.events[1..]), c.events[0], now).0
  }

  /** Handling an event keeps the calculator consistent. */
  lemma HandleEventConsistent(c: MetricsCalculator, e: Event, now: int)
    requires Consistent(c)
    ensures Consistent(HandleEvent(c, e, now).0)
  {
    var key := SeriesKey(e);
    var m := if key in c.metrics then c.metrics[key]
             else NewMetrics(e.targetId, e.key, e.metadata, MaxSamples);
    UpdateValid(m, e.serverTimestamp);
    NotifyKeepsBuffersBounded(c.subscribers, HandleEvent(c, e, now).1);
  }

  /** Every operation of the sequential model keeps the calculator
      consistent: enqueueing, subscribing, unsubscribing and stepping. */
  lemma OperationsConsistent(c: MetricsCalculator, e: Event, id: SubscriberId, now: int)
    requires Consistent(c)
    ensures ProcessEvent(c, e).Success? ==> Consistent(ProcessEvent(c, e).value)
    ensures id !in c.subscribers ==> Consistent(Subscribe(c, id))
    ensures id in c.subscribers ==> Consistent(Unsubscribe(c, id))
    ensures |c.events| > 0 ==> Consistent(Step(c, now))
  {
    if |c.events| > 0 {
      HandleEventConsistent(c.(events := c.events[1..]), c.events[0], now);
    }
  }

  // ---------------------------------------------------------------------
  // Many events
  // ---------------------------------------------------------------------

  /** Handles the events of `es` in order. */
  function HandleAll(c: MetricsCalculator, es: seq<Event>, now: int): (c': MetricsCalculator)
    requires forall k :: k in c.metrics ==> c.metrics[k].samples.Valid()
    ensures forall k :: k in c'.metrics ==> c'.metrics[k].samples.Valid()
    ensures c'.metrics.Keys >= c.metrics.Keys
    decreases |es|
  {
    if |es| == 0 then c
    else
      var c1 := HandleAll(c, es[..|es| - 1], now);
      HandleEvent(c1, es[|es| - 1], now).0
  }

  /** How many events of `es` belong to the series `key`. */
  function CountFor(es: seq<Event>, key: string): (n: nat)
    ensures n <= |es|
    decreases |es|
  {
    if |es| == 0 then 0
    else CountFor(es[..|es| - 1], key) + (if SeriesKey(es[|es| - 1]) == key then 1 else 0)
  }

  /** No event is lost or counted twice: after handling `es`, a series
      exists iff it existed before or some event belongs to it, and its
      count grew by exactly the number of events that belong to it. */
  lemma {:induction false} EventsCountedOnce(c: MetricsCalculator, es: seq<Event>, now: int, key: string)
    requires forall k :: k in c.metrics ==> c.metrics[k].samples.Valid()
    ensures key in HandleAll(c, es, now).metrics <==> key in c.metrics || CountFor(es, key) > 0
    ensures key in HandleAll(c, es, now).metrics ==>
              HandleAll(c, es, now).metrics[key].count
              == (if key in c.metrics then c.metrics[key].count else 0) + CountFor(es, key)
    decreases |es|
  {
    if |es| > 0 {
      EventsCountedOnce(c, es[..|es| - 1], now, key);
    }
  }
}
