/** The sample window of one series: Go's `container/ring` of capacity
    `MaxSamples`, holding raw event timestamps (integer nanoseconds).
    `slots` lists the ring's elements in `Next` order and `cursor` is the
    element the series' `*ring.Ring` pointer currently designates; an
    element whose `Value` is nil is `None`. */
module SampleRing {
  import opened Wrappers

  datatype Ring = Ring(slots: seq<Option<int>>, cursor: nat)
  {
    /** A ring has at least one element and the cursor designates one of them. */
    predicate Valid()
    {
      0 < |slots| && cursor < |slots|
    }

    function Capacity(): nat
    {
      |slots|
    }

    /** The value at the cursor: the most recently recorded timestamp, if any. */
    function Latest(): Option<int>
      requires Valid()
    {
      slots[cursor]
    }

    /** Position reached by `Next()` from position `i`. */
    function Next(i: nat): (j: nat)
      requires Valid() && i < |slots|
      ensures j < |slots|
    {
      if i + 1 < |slots| then i + 1 else 0
    }
  }

  /** `ring.New(n)`: `n` elements, all empty, cursor on the first. */
  function NewRing(n: nat): (r: Ring)
    requires n > 0
    ensures r.Valid() && r.Capacity() == n && r.cursor == 0
    ensures forall i :: 0 <= i < n ==> r.slots[i] == None
  {
    Ring(seq(n, _ => None), 0)
  }

  /** Advances the cursor by one element and overwrites that element with `t`;
      when the ring is full this evicts the oldest timestamp. */
  function Record(r: Ring, t: int): (r': Ring)
    requires r.Valid()
    ensures r'.Valid() && r'.Capacity() == r.Capacity()
    ensures r'.cursor == r.Next(r.cursor)
    ensures r'.Latest() == Some(t)
    ensures forall i :: 0 <= i < |r.slots| && i != r'.cursor ==> r'.slots[i] == r.slots[i]
  {
    var c := r.Next(r.cursor);
    Ring(r.slots[c := Some(t)], c)
  }

  /** Records the timestamps of `ts` one after the other. */
  function RecordAll(r: Ring, ts: seq<int>): (r': Ring)
    requires r.Valid()
    ensures r'.Valid() && r'.Capacity() == r.Capacity()
    decreases |ts|
  {
    if |ts| == 0 then r else Record(RecordAll(r, ts[..|ts| - 1]), ts[|ts| - 1])
  }

  lemma MulAtLeast(d: int, n: int)
    requires d >= 1 && n > 0
    ensures d * n >= n
  {
    assert d * n == (d - 1) * n + n;
    assert (d - 1) * n >= 0;
  }

  /** Euclidean division is determined by quotient and remainder. */
  lemma DivModUnique(x: int, q: int, r: int, n: int)
    requires n > 0 && 0 <= r < n && x == q * n + r
    ensures x % n == r && x / n == q
  {
    var q', r' := x / n, x % n;
    assert x == q' * n + r';
    assert (q - q') * n == r' - r;
    if q - q' >= 1 {
      MulAtLeast(q - q', n);
    } else if q' - q >= 1 {
      MulAtLeast(q' - q, n);
    }
  }

  lemma ModSucc(a: nat, n: nat)
    requires n > 0
    ensures ((a % n) + 1) % n == (a + 1) % n
  {
    var q, r := a / n, a % n;
    assert a == q * n + r;
    if r + 1 < n {
      DivModUnique(a + 1, q, r + 1, n);
      DivModUnique(r + 1, 0, r + 1, n);
    } else {
      DivModUnique(a + 1, q + 1, 0, n);
      DivModUnique(r + 1, 1, 0, n);
    }
  }

  /** Reducing the left operand first does not change a sum modulo `n`. */
  lemma ModAddLeft(a: nat, k: nat, n: nat)
    requires n > 0
    ensures (a % n + k) % n == (a + k) % n
  {
    var q, r := a / n, a % n;
    var q2, r2 := (r + k) / n, (r + k) % n;
    assert a == q * n + r;
    assert r + k == q2 * n + r2;
    assert a + k == (q + q2) * n + r2;
    DivModUnique(a + k, q + q2, r2, n);
  }

  /** Stepping with `Next` is adding one modulo the capacity. */
  lemma NextIsSuccMod(r: Ring, i: nat)
    requires r.Valid() && i < |r.slots|
    ensures r.Next(i) == (i + 1) % |r.slots|
  {
    if i + 1 < |r.slots| {
      ModSmall(i + 1, |r.slots|);
    } else {
      DivModUnique(i + 1, 1, 0, |r.slots|);
    }
  }

  lemma ModDiffer(a: nat, b: nat, n: nat)
    requires n > 0 && a < b < a + n
    ensures a % n != b % n
  {
    var qa, qb := a / n, b / n;
    assert a == qa * n + a % n;
    assert b == qb * n + b % n;
    if a % n == b % n {
      var d := qb - qa;
      assert b - a == d * n;
      if d >= 1 {
        MulAtLeast(d, n);
      } else if d <= -1 {
        MulAtLeast(-d, n);
      }
    }
  }

  lemma ModSmall(a: nat, n: nat)
    requires a < n
    ensures a % n == a
  {
    DivModUnique(a, 0, a, n);
  }

  /** First-in first-out eviction: after recording `ts` into a fresh ring of
      `n` elements, the cursor has moved `|ts|` steps, each of the newest
      `min(|ts|, n)` timestamps sits in the element it was written to, and
      exactly those elements are filled (all of them once `|ts| >= n`). */
  lemma RecordAllKeepsNewest(n: nat, ts: seq<int>)
    requires n > 0
    ensures RecordAll(NewRing(n), ts).cursor == |ts| % n
    ensures forall k :: 0 <= k < |ts| && |ts| - n <= k ==>
              RecordAll(NewRing(n), ts).slots[(k + 1) % n] == Some(ts[k])
    ensures forall j :: 0 <= j < n ==>
              (RecordAll(NewRing(n), ts).slots[j].Some? <==> (n <= |ts| || 1 <= j <= |ts|))
  {
    RecordAllCursor(n, ts);
    RecordAllNewest(n, ts);
    RecordAllFilled(n, ts);
  }

  /** Each recorded timestamp moves the cursor one step. */
  lemma {:induction false} RecordAllCursor(n: nat, ts: seq<int>)
    requires n > 0
    ensures RecordAll(NewRing(n), ts).cursor == |ts| % n
    decreases |ts|
  {
    if |ts| > 0 {
      var m := |ts|;
      var r0 := RecordAll(NewRing(n), ts[..m - 1]);
      RecordAllCursor(n, ts[..m - 1]);
      assert RecordAll(NewRing(n), ts) == Record(r0, ts[m - 1]);
      ModSucc(m - 1, n);
      NextIsSuccMod(r0, (m - 1) % n);
    }
  }

  /** The newest `min(|ts|, n)` timestamps are still held. */
  lemma {:induction false} RecordAllNewest(n: nat, ts: seq<int>)
    requires n > 0
    ensures forall k :: 0 <= k < |ts| && |ts| - n <= k ==>
              RecordAll(NewRing(n), ts).slots[(k + 1) % n] == Some(ts[k])
    decreases |ts|
  {
    if |ts| > 0 {
      var m := |ts|;
      var init := ts[..m - 1];
      RecordAllNewest(n, init);
      RecordAllCursor(n, ts);
      var r0 := RecordAll(NewRing(n), init);
      var r := RecordAll(NewRing(n), ts);
      assert r == Record(r0, ts[m - 1]);
      forall k | 0 <= k < m && m - n <= k
        ensures r.slots[(k + 1) % n] == Some(ts[k])
      {
        if k < m - 1 {
          ModDiffer(k + 1, m, n);
          assert r0.slots[(k + 1) % n] == Some(init[k]);
        }
      }
    }
  }

  /** Exactly the elements written so far are filled. */
  lemma {:induction false} RecordAllFilled(n: nat, ts: seq<int>)
    requires n > 0
    ensures forall j :: 0 <= j < n ==>
              (RecordAll(NewRing(n), ts).slots[j].Some? <==> (n <= |ts| || 1 <= j <= |ts|))
    decreases |ts|
  {
    if |ts| > 0 {
      var m := |ts|;
      var init := ts[..m - 1];
      RecordAllFilled(n, init);
      RecordAllCursor(n, ts);
      var r0 := RecordAll(NewRing(n), init);
      var r := RecordAll(NewRing(n), ts);
      assert r == Record(r0, ts[m - 1]);
      forall j | 0 <= j < n
        ensures r.slots[j].Some? <==> (n <= m || 1 <= j <= m)
      {
        if j != r.cursor {
          assert r.slots[j] == r0.slots[j];
          if m < n {
            ModSmall(m, n);
          } else if m == n {
            DivModUnique(m, 1, 0, n);
          }
        } else if m < n {
          ModSmall(m, n);
        }
      }
    }
  }
}
