/** The shaping rules of the synthetic event generator: the key an event
    gets, its payload size and the delay before the next event. Random draws
    are parameters; float64 arithmetic is modelled with exact reals, and
    Go's float-to-integer conversions truncate toward zero. */
module Generator {
  import opened Wrappers
  import opened Proto

  /** The generator's `Config`; intervals are nanoseconds. `metadata` is the
      metadata map in iteration order; `metadataRules` maps a metadata key
      and value to a multiplier. */
  datatype Config = Config(
    targetId: string,
    keyPrefix: string,
    numKeys: int,
    minInterval: int,
    maxInterval: int,
    minPayload: int,
    maxPayload: int,
    metadata: Metadata,
    metadataRules: map<string, map<string, real>>)

  /** Go's conversion of a float to an integer: truncation toward zero. */
  function Trunc(x: real): (n: int)
    ensures x >= 0.0 ==> n as real <= x < n as real + 1.0
    ensures x < 0.0 ==> n as real - 1.0 < x <= n as real
  {
    if x >= 0.0 then x.Floor else -((-x).Floor)
  }

  /** Go's conversion of an integer to `int32`: two's-complement wrap-around. */
  function ToInt32(x: int): (n: int)
    ensures -0x8000_0000 <= n < 0x8000_0000
    ensures -0x8000_0000 <= x < 0x8000_0000 ==> n == x
    ensures (x - n) % 0x1_0000_0000 == 0
  {
    var w := (x + 0x8000_0000) % 0x1_0000_0000;
    assert x - (w - 0x8000_0000) == ((x + 0x8000_0000) / 0x1_0000_0000) * 0x1_0000_0000;
    w - 0x8000_0000
  }

  /** The multiplier the rules assign to one metadata pair, if any. */
  function RuleFor(rules: map<string, map<string, real>>, entry: (string, string)): Option<real>
  {
    if entry.0 in rules && entry.1 in rules[entry.0] then Some(rules[entry.0][entry.1]) else None
  }

  /** No metadata pair has a rule. */
  predicate NoRuleApplies(metadata: Metadata, rules: map<string, map<string, real>>)
  {
    forall i :: 0 <= i < |metadata| ==> RuleFor(rules, metadata[i]).None?
  }

  // ---------------------------------------------------------------------
  // Interval
  // ---------------------------------------------------------------------

  /** `acc` times the pair's multiplier, if it has a rule. */
  function ScaleByRule(acc: real, rules: map<string, map<string, real>>, entry: (string, string)): real
  {
    match RuleFor(rules, entry)
    case Some(m) => acc * m
    case None => acc
  }

  /** `size` scaled by the pair's multiplier and truncated, if it has a rule. */
  function SizeByRule(size: int, rules: map<string, map<string, real>>, entry: (string, string)): int
  {
    match RuleFor(rules, entry)
    case Some(m) => Trunc(size as real * m)
    case None => size
  }

  /** Multiplies `acc` by the multiplier of every pair that has a rule, in
      iteration order. */
  function MultiplyRules(acc: real, metadata: Metadata, rules: map<string, map<string, real>>): real
    decreases |metadata|
  {
    if |metadata| == 0 then acc
    else
      MultiplyRules(ScaleByRule(acc, rules, metadata[0]), metadata[1..], rules)
  }

  /** The interval multiplier: the product of the matching rules' multipliers. */
  function IntervalMultiplier(metadata: Metadata, rules: map<string, map<string, real>>): real
  {
    MultiplyRules(1.0, metadata, rules)
  }

  /** The interval before jitter is adjusted: `MinInterval` plus the draw's
      share of the span. */
  function BaseInterval(cfg: Config, u: real): (b: int)
    requires 0.0 <= u < 1.0
    ensures cfg.minInterval <= cfg.maxInterval ==> cfg.minInterval <= b <= cfg.maxInterval
    ensures var jitter := u * (cfg.maxInterval - cfg.minInterval) as real;
      && (cfg.minInterval <= cfg.maxInterval ==>
            (b - cfg.minInterval) as real <= jitter < (b - cfg.minInterval + 1) as real)
      && (cfg.minInterval > cfg.maxInterval ==>
            (b - cfg.minInterval - 1) as real < jitter <= (b - cfg.minInterval) as real)
  {
    DrawWithinSpan(cfg.maxInterval - cfg.minInterval, u);
    cfg.minInterval + Trunc(u * (cfg.maxInterval - cfg.minInterval) as real)
  }

  /** `n` scaled by `m` and truncated, as `time.Duration(float64(n) * m)`. */
  function ScaleDuration(n: int, m: real): int
  {
    Trunc(n as real * m)
  }

  /** `calculateInterval` for the uniform draw `u`: the base interval scaled
      by the metadata multiplier, raised to `MinInterval` if below it. */
  function CalculateInterval(cfg: Config, u: real): (r: int)
    requires 0.0 <= u < 1.0
    ensures r >= cfg.minInterval
    ensures r >= ScaleDuration(BaseInterval(cfg, u), IntervalMultiplier(cfg.metadata, cfg.metadataRules))
    ensures r == cfg.minInterval ||
            r == ScaleDuration(BaseInterval(cfg, u), IntervalMultiplier(cfg.metadata, cfg.metadataRules))
  {
    var multiplier := IntervalMultiplier(cfg.metadata, cfg.metadataRules);
    var adjusted := ScaleDuration(BaseInterval(cfg, u), multiplier);
    if adjusted < cfg.minInterval then cfg.minInterval else adjusted
  }

  // ---------------------------------------------------------------------
  // Payload size
  // ---------------------------------------------------------------------

  /** Scales `size` by the multiplier of every pair that has a rule, in
      iteration order, truncating after each step. */
  function ApplyPayloadRules(size: int, metadata: Metadata, rules: map<string, map<string, real>>): int
    decreases |metadata|
  {
    if |metadata| == 0 then size
    else
      ApplyPayloadRules(SizeByRule(size, rules, metadata[0]), metadata[1..], rules)
  }

  /** `calculatePayloadSize` for the draw `r` of `rand.Intn(MaxPayload -
      MinPayload)` (which needs a positive span): the adjusted size clamped
      into `[MinPayload, MaxPayload]`. */
  function CalculatePayloadSize(cfg: Config, r: int): (size: int)
    requires cfg.minPayload < cfg.maxPayload
    requires 0 <= r < cfg.maxPayload - cfg.minPayload
    ensures cfg.minPayload <= size <= cfg.maxPayload
    ensures var adjusted := ApplyPayloadRules(cfg.minPayload + r, cfg.metadata, cfg.metadataRules);
      && (cfg.minPayload <= adjusted <= cfg.maxPayload ==> size == adjusted)
      && (adjusted < cfg.minPayload ==> size == cfg.minPayload)
      && (adjusted > cfg.maxPayload ==> size == cfg.maxPayload)
    ensures NoRuleApplies(cfg.metadata, cfg.metadataRules) ==> size == cfg.minPayload + r
  {
    NoRuleKeepsPayload(cfg.minPayload + r, cfg.metadata, cfg.metadataRules);
    var adjusted := ApplyPayloadRules(cfg.minPayload + r, cfg.metadata, cfg.metadataRules);
    if adjusted < cfg.minPayload then cfg.minPayload
    else if adjusted > cfg.maxPayload then cfg.maxPayload
    else adjusted
  }

  // ---------------------------------------------------------------------
  // Events
  // ---------------------------------------------------------------------

  /** The character `string(rune('A' + i))` yields: the code point `'A'+i`
      when it is a Unicode scalar value, U+FFFD otherwise. */
  function KeyChar(i: int): (ch: char)
    ensures 0 <= i < 0xD800 - 65 ==> ch as int == 65 + i
  {
    var code := ToInt32(65 + i);
    if 0 <= code < 0xD800 || 0xE000 <= code < 0x11_0000 then code as char else 0xFFFD as char
  }

  /** The run-time panic of `make([]byte, n)` for a negative `n`. */
  const NegativeLengthPanic := "runtime error: makeslice: len out of range"

  /** The panic of `rand.Intn(n)` for `n <= 0`. */
  const IntnPanic := "invalid argument to Intn"

  /** Whether both draws of `generateEvent` have a positive bound, so that
      `rand.Intn` returns instead of panicking. */
  predicate DrawsPossible(cfg: Config)
  {
    cfg.numKeys > 0 && cfg.minPayload < cfg.maxPayload
  }

  /** `generateEvent` for the key draw `keyIndex`, payload draw `r` and
      clock reading `now`. The key draw panics when `NumKeys <= 0`, the
      payload draw when `MaxPayload <= MinPayload`, and allocating the
      payload when the final size is negative, which a negative `MinPayload`
      allows. A draw is only constrained when its bound is positive. */
  function GenerateEvent(cfg: Config, keyIndex: int, r: int, now: int): (ev: Result<Event, string>)
    requires cfg.numKeys > 0 ==> 0 <= keyIndex < cfg.numKeys
    requires cfg.minPayload < cfg.maxPayload ==> 0 <= r < cfg.maxPayload - cfg.minPayload
    ensures !DrawsPossible(cfg) ==> ev == Failure(IntnPanic)
    ensures DrawsPossible(cfg) ==>
              (ev.Success? <==> CalculatePayloadSize(cfg, r) >= 0)
    ensures DrawsPossible(cfg) && cfg.minPayload >= 0 ==> ev.Success?
    ensures DrawsPossible(cfg) && ev.Failure? ==> ev.error == NegativeLengthPanic
    ensures ev.Success? ==>
              && DrawsPossible(cfg)
              && ev.value.targetId == cfg.targetId && ev.value.metadata == cfg.metadata
              && ev.value.serverTimestamp == now
              && ev.value.key == cfg.keyPrefix + [KeyChar(keyIndex)]
              && ev.value.payloadSize == ToInt32(CalculatePayloadSize(cfg, r))
              && (cfg.maxPayload < 0x8000_0000 ==>
                    cfg.minPayload <= ev.value.payloadSize <= cfg.maxPayload)
  {
    if cfg.numKeys <= 0 then Failure(IntnPanic)
    else if cfg.maxPayload <= cfg.minPayload then Failure(IntnPanic)
    else
      var size := CalculatePayloadSize(cfg, r);
      if size < 0 then Failure(NegativeLengthPanic)
      else
        Success(Event(cfg.targetId, cfg.keyPrefix + [KeyChar(keyIndex)], now,
                      ToInt32(size), cfg.metadata))
  }

  // ---------------------------------------------------------------------
  // Lemmas
  // ---------------------------------------------------------------------

  /** Without a matching rule the payload size is left as drawn. */
  lemma {:induction false} NoRuleKeepsPayload(size: int, metadata: Metadata, rules: map<string, map<string, real>>)
    ensures NoRuleApplies(metadata, rules) ==> ApplyPayloadRules(size, metadata, rules) == size
    decreases |metadata|
  {
    if |metadata| > 0 && NoRuleApplies(metadata, rules) {
      assert RuleFor(rules, metadata[0]).None?;
      NoRuleKeepsPayload(size, metadata[1..], rules);
    }
  }

  /** Without a matching rule the interval multiplier is one. */
  lemma {:induction false} NoRuleKeepsMultiplier(acc: real, metadata: Metadata, rules: map<string, map<string, real>>)
    requires NoRuleApplies(metadata, rules)
    ensures MultiplyRules(acc, metadata, rules) == acc
    decreases |metadata|
  {
    if |metadata| > 0 {
      assert RuleFor(rules, metadata[0]).None?;
      NoRuleKeepsMultiplier(acc, metadata[1..], rules);
    }
  }

  /** A metadata pair without a rule (unknown key, or unknown value) can be
      dropped without changing the interval multiplier. */
  lemma {:induction false} UnmatchedPairKeepsMultiplier(
    acc: real, before: Metadata, entry: (string, string), after: Metadata,
    rules: map<string, map<string, real>>)
    requires RuleFor(rules, entry).None?
    ensures MultiplyRules(acc, before + [entry] + after, rules) == MultiplyRules(acc, before + after, rules)
    decreases |before|
  {
    if |before| == 0 {
      assert before + [entry] + after == [entry] + after;
      assert ([entry] + after)[1..] == after;
      assert before + after == after;
    } else {
      UnmatchedPairKeepsMultiplier(ScaleByRule(acc, rules, before[0]), before[1..], entry, after, rules);
      assert (before + [entry] + after)[1..] == before[1..] + [entry] + after;
      assert (before + after)[1..] == before[1..] + after;
    }
  }

  /** A metadata pair without a rule (unknown key, or unknown value) can be
      dropped without changing the payload size. */
  lemma {:induction false} UnmatchedPairKeepsPayload(
    size: int, before: Metadata, entry: (string, string), after: Metadata,
    rules: map<string, map<string, real>>)
    requires RuleFor(rules, entry).None?
    ensures ApplyPayloadRules(size, before + [entry] + after, rules)
            == ApplyPayloadRules(size, before + after, rules)
    decreases |before|
  {
    if |before| == 0 {
      assert before + [entry] + after == [entry] + after;
      assert ([entry] + after)[1..] == after;
      assert before + after == after;
    } else {
      UnmatchedPairKeepsPayload(SizeByRule(size, rules, before[0]), before[1..], entry, after, rules);
      assert (before + [entry] + after)[1..] == before[1..] + [entry] + after;
      assert (before + after)[1..] == before[1..] + after;
    }
  }

  /** With `MinInterval == MaxInterval == d >= 0` the base interval is `d`;
      a multiplier of at least one yields `d * m` (which may exceed
      `MaxInterval`: there is no upper clamp), and one in `[0, 1]` yields
      `d` again. */
  lemma FixedInterval(cfg: Config, u: real)
    requires 0.0 <= u < 1.0
    requires cfg.minInterval == cfg.maxInterval >= 0
    ensures var m := IntervalMultiplier(cfg.metadata, cfg.metadataRules);
      && (m >= 1.0 ==> CalculateInterval(cfg, u) == Trunc(cfg.minInterval as real * m))
      && (0.0 <= m <= 1.0 ==> CalculateInterval(cfg, u) == cfg.minInterval)
  {
    var m := IntervalMultiplier(cfg.metadata, cfg.metadataRules);
    var d := cfg.minInterval;
    FixedBase(cfg, u);
    ScaledFixed(d, m);
    var scaled := ScaleDuration(d, m);
    assert scaled == Trunc(d as real * m);
    assert CalculateInterval(cfg, u) == if scaled < d then d else scaled;
  }

  lemma FixedBase(cfg: Config, u: real)
    requires 0.0 <= u < 1.0
    requires cfg.minInterval == cfg.maxInterval
    ensures BaseInterval(cfg, u) == cfg.minInterval
  {
    assert u * (cfg.maxInterval - cfg.minInterval) as real == 0.0;
  }

  /** Truncating `d * m` for a non-negative integer `d`: at least `d` when
      `m >= 1`, and at most `d` when `m` is in `[0, 1]`. */
  lemma ScaledFixed(d: int, m: real)
    requires d >= 0
    ensures m >= 1.0 ==> Trunc(d as real * m) >= d
    ensures 0.0 <= m <= 1.0 ==> Trunc(d as real * m) <= d
  {
    TruncOfInteger(d);
    if m >= 1.0 {
      ScaleAbove(d as real, m);
      TruncMonotone(d as real, d as real * m);
    }
    if 0.0 <= m <= 1.0 {
      var x := d as real * m;
      ScaleWithin(d as real, m);
      assert 0.0 <= x <= d as real;
      TruncMonotone(x, d as real);
    }
  }

  /** A draw in `[0, 1)` of a non-negative span truncates into `[0, span]`. */
  lemma DrawWithinSpan(span: int, u: real)
    requires 0.0 <= u < 1.0
    ensures span >= 0 ==> 0 <= Trunc(u * span as real) <= span
  {
    if span >= 0 {
      var s := span as real;
      var x := u * s;
      ScaleWithin(s, u);
      assert 0.0 <= x <= s;
      TruncMonotone(x, s);
      TruncOfInteger(span);
    }
  }

  lemma TruncOfInteger(n: int)
    ensures Trunc(n as real) == n
  {
  }

  lemma TruncMonotone(x: real, y: real)
    requires 0.0 <= x <= y
    ensures 0 <= Trunc(x) <= Trunc(y)
  {
  }

  /** Scaling a non-negative `s` by a factor in `[0, 1]` stays in `[0, s]`. */
  lemma ScaleWithin(s: real, u: real)
    requires s >= 0.0 && 0.0 <= u <= 1.0
    ensures 0.0 <= u * s <= s && 0.0 <= s * u <= s
  {
    assert s * u == u * s;
    assert s - u * s == (1.0 - u) * s;
  }

  /** Scaling a non-negative `s` by a factor of at least one does not shrink it. */
  lemma ScaleAbove(s: real, m: real)
    requires s >= 0.0 && m >= 1.0
    ensures s * m >= s
  {
    assert s * m - s == s * (m - 1.0);
  }

  /** The generator test's slow tier: 100 ms with a 2x rule gives 200 ms,
      twice `MaxInterval`. */
  lemma SlowTierDoublesInterval(u: real)
    requires 0.0 <= u < 1.0
    ensures var cfg := Config("test-target", "test-", 1, 100_000_000, 100_000_000, 10, 10,
                              [("tier", "slow")], map["tier" := map["slow" := 2.0]]);
      CalculateInterval(cfg, u) == 200_000_000 > cfg.maxInterval
  {
    var cfg := Config("test-target", "test-", 1, 100_000_000, 100_000_000, 10, 10,
                      [("tier", "slow")], map["tier" := map["slow" := 2.0]]);
    assert RuleFor(cfg.metadataRules, ("tier", "slow")) == Some(2.0);
    assert IntervalMultiplier(cfg.metadata, cfg.metadataRules) == 2.0;
    FixedInterval(cfg, u);
  }

  /** The generator test's `negative_min_payload` configuration: with
      `MinPayload == -1` and no rules, the payload draw 0 gives size -1 and
      allocating the payload panics, while every other draw succeeds. */
  lemma NegativeMinPayloadPanics(keyIndex: int, r: int, now: int)
    requires 0 <= keyIndex < 5 && 0 <= r < 101
    ensures var cfg := Config("test-target", "test-", 5, 100_000_000, 200_000_000, -1, 100, [], map[]);
      GenerateEvent(cfg, keyIndex, r, now).Failure? <==> r == 0
  {
    var cfg := Config("test-target", "test-", 5, 100_000_000, 200_000_000, -1, 100, [], map[]);
    NoRuleKeepsPayload(cfg.minPayload + r, cfg.metadata, cfg.metadataRules);
  }

  /** The generator test's `min_payload_greater_than_max` configuration
      (which its start guard admits): the payload draw `rand.Intn(10 - 100)`
      panics on the first event, whatever the key draw. */
  lemma PayloadSpanPanics(keyIndex: int, r: int, now: int)
    requires 0 <= keyIndex < 5
    ensures var cfg := Config("test-target", "test-", 5, 100_000_000, 200_000_000, 100, 10, [], map[]);
      GenerateEvent(cfg, keyIndex, r, now) == Failure(IntnPanic)
  {
  }

  /** Starting the product at `acc` scales the multiplier by `acc`. */
  lemma {:induction false} MultiplyRulesScales(acc: real, metadata: Metadata, rules: map<string, map<string, real>>)
    ensures MultiplyRules(acc, metadata, rules) == acc * IntervalMultiplier(metadata, rules)
    decreases |metadata|
  {
    if |metadata| > 0 {
      var rest := metadata[1..];
      var f := ScaleByRule(1.0, rules, metadata[0]);
      MultiplyRulesScales(ScaleByRule(acc, rules, metadata[0]), rest, rules);
      MultiplyRulesScales(f, rest, rules);
      assert ScaleByRule(acc, rules, metadata[0]) == acc * f;
      assert MultiplyRules(acc, metadata, rules) == (acc * f) * IntervalMultiplier(rest, rules);
      assert IntervalMultiplier(metadata, rules) == f * IntervalMultiplier(rest, rules);
    }
  }

  /** The multiplier of metadata met in two runs is the product of the two
      runs' multipliers. */
  lemma {:induction false} MultiplierAppend(a: Metadata, b: Metadata, rules: map<string, map<string, real>>)
    ensures IntervalMultiplier(a + b, rules) == IntervalMultiplier(a, rules) * IntervalMultiplier(b, rules)
    decreases |a|
  {
    if |a| > 0 {
      var f := ScaleByRule(1.0, rules, a[0]);
      assert (a + b)[0] == a[0] && (a + b)[1..] == a[1..] + b;
      MultiplierAppend(a[1..], b, rules);
      MultiplyRulesScales(f, a[1..] + b, rules);
      MultiplyRulesScales(f, a[1..], rules);
      assert IntervalMultiplier(a + b, rules) == f * IntervalMultiplier(a[1..] + b, rules);
      assert IntervalMultiplier(a, rules) == f * IntervalMultiplier(a[1..], rules);
    } else {
      assert a + b == b;
    }
  }

  /** Unlike the payload size, the interval multiplier is unchanged when
      two runs of metadata are met in the other order. */
  lemma MultiplierOrderFree(a: Metadata, b: Metadata, rules: map<string, map<string, real>>)
    ensures IntervalMultiplier(a + b, rules) == IntervalMultiplier(b + a, rules)
  {
    MultiplierAppend(a, b, rules);
    MultiplierAppend(b, a, rules);
  }

  /** The multiplier does not depend on the iteration order at all: any
      reordering of the same pairs gives the same product. */
  lemma {:induction false} MultiplierPermutationFree(a: Metadata, b: Metadata, rules: map<string, map<string, real>>)
    requires multiset(a) == multiset(b)
    ensures IntervalMultiplier(a, rules) == IntervalMultiplier(b, rules)
    decreases |a|
  {
    if |a| == 0 {
      assert |b| == |multiset(b)| == 0;
    } else {
      assert a[0] in multiset(b);
      var i :| 0 <= i < |b| && b[i] == a[0];
      RemoveAt(a, b, i);
      MultiplierPermutationFree(a[1..], b[..i] + b[i + 1..], rules);
      MultiplierSplitAt(b, i, rules);
      MultiplierAppend([a[0]], a[1..], rules);
      assert a == [a[0]] + a[1..];
    }
  }

  /** Taking the first pair off `a` and the same pair off `b` at `i`
      leaves equal multisets. */
  lemma RemoveAt(a: Metadata, b: Metadata, i: nat)
    requires multiset(a) == multiset(b) && |a| > 0 && i < |b| && b[i] == a[0]
    ensures multiset(a[1..]) == multiset(b[..i] + b[i + 1..])
  {
    assert a == [a[0]] + a[1..];
    assert b == b[..i] + [b[i]] + b[i + 1..];
    assert multiset(a) == multiset{a[0]} + multiset(a[1..]);
    assert multiset(b) == multiset(b[..i]) + multiset{a[0]} + multiset(b[i + 1..]);
    assert multiset(b[..i] + b[i + 1..]) == multiset(b[..i]) + multiset(b[i + 1..]);
    assert multiset(a[1..]) == multiset(a) - multiset{a[0]};
    assert multiset(b[..i] + b[i + 1..]) == multiset(b) - multiset{a[0]};
  }

  /** The multiplier with the pair at `i` factored out. */
  lemma MultiplierSplitAt(b: Metadata, i: nat, rules: map<string, map<string, real>>)
    requires i < |b|
    ensures IntervalMultiplier(b, rules)
         == IntervalMultiplier([b[i]], rules) * IntervalMultiplier(b[..i] + b[i + 1..], rules)
  {
    var x, l, r := IntervalMultiplier([b[i]], rules), IntervalMultiplier(b[..i], rules), IntervalMultiplier(b[i + 1..], rules);
    assert b == (b[..i] + [b[i]]) + b[i + 1..];
    MultiplierAppend(b[..i] + [b[i]], b[i + 1..], rules);
    MultiplierAppend(b[..i], [b[i]], rules);
    MultiplierAppend(b[..i], b[i + 1..], rules);
    assert IntervalMultiplier(b, rules) == (l * x) * r;
    assert (l * x) * r == x * (l * r);
  }

  /** The payload adjustment over metadata met in two runs adjusts by the
      first run, then by the second. */
  lemma {:induction false} PayloadRulesAppend(size: int, a: Metadata, b: Metadata, rules: map<string, map<string, real>>)
    ensures ApplyPayloadRules(size, a + b, rules) == ApplyPayloadRules(ApplyPayloadRules(size, a, rules), b, rules)
    decreases |a|
  {
    if |a| > 0 {
      assert (a + b)[0] == a[0] && (a + b)[1..] == a[1..] + b;
      PayloadRulesAppend(SizeByRule(size, rules, a[0]), a[1..], b, rules);
    } else {
      assert a + b == b;
    }
  }

  /** Because the size is truncated after every matching rule, the payload
      size depends on the order in which the metadata map is met: 3 with
      rules 0.5 and 3.0 gives 3 in one order and 4 in the other. */
  lemma PayloadDependsOnOrder()
    ensures var rules := map["a" := map["x" := 0.5], "b" := map["y" := 3.0]];
      && ApplyPayloadRules(3, [("a", "x"), ("b", "y")], rules) == 3
      && ApplyPayloadRules(3, [("b", "y"), ("a", "x")], rules) == 4
  {
    var rules := map["a" := map["x" := 0.5], "b" := map["y" := 3.0]];
    assert RuleFor(rules, ("a", "x")) == Some(0.5);
    assert RuleFor(rules, ("b", "y")) == Some(3.0);
    assert Trunc(3 as real * 0.5) == 1;
    assert Trunc(1 as real * 3.0) == 3;
    assert Trunc(3 as real * 3.0) == 9;
    assert Trunc(9 as real * 0.5) == 4;
    assert [("a", "x"), ("b", "y")][1..] == [("b", "y")];
    assert [("b", "y"), ("a", "x")][1..] == [("a", "x")];
  }

  /** Distinct key draws below the surrogate range give distinct keys, and
      the key names the draw: the index is the key's last character minus 'A'. */
  lemma KeyNamesDraw(cfg: Config, i: int, j: int)
    requires 0 <= i < 0xD800 - 65 && 0 <= j < 0xD800 - 65
    ensures (cfg.keyPrefix + [KeyChar(i)])[|cfg.keyPrefix|] as int - 65 == i
    ensures i != j ==> cfg.keyPrefix + [KeyChar(i)] != cfg.keyPrefix + [KeyChar(j)]
  {
    if i != j {
      assert (cfg.keyPrefix + [KeyChar(i)])[|cfg.keyPrefix|] != (cfg.keyPrefix + [KeyChar(j)])[|cfg.keyPrefix|];
    }
  }
}
