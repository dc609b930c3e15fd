/** The sliding-window log of db/express/src/middleware/rateLimiter.ts, and its Redis counterpart. */
module RateLimiter {

  /** Every API key has a log for its minute limit and one for its day limit. */
  datatype Key = Minute(id: int) | Day(id: int)

  datatype Entry = Entry(count: int, resetAt: int)

  type Store = map<Key, seq<Entry>>

  function Live(entries: seq<Entry>, now: int): seq<Entry> {
    if entries == [] then []
    else
      var before, e := Live(entries[..|entries| - 1], now), entries[|entries| - 1];
      if e.resetAt > now then before + [e] else before
  }

  function Entries(s: Store, k: Key): seq<Entry> {
    if k in s then s[k] else []
  }

  function Increment(s: Store, k: Key, windowSeconds: int, now: int): Store {
    s[k := Live(Entries(s, k), now) + [Entry(1, now + windowSeconds * 1000)]]
  }

  function Cleanup(s: Store, now: int): Store {
    map k | k in s && Live(s[k], now) != [] :: Live(s[k], now)
  }

  function Earliest(entries: seq<Entry>): int
    requires entries != []
  {
    var last := entries[|entries| - 1].resetAt;
    if |entries| == 1 then last
    else
      var rest := Earliest(entries[..|entries| - 1]);
      if last < rest then last else rest
  }

  /** Seconds, rounded up; Dafny's division floors, as the rounding needs. */
  function CeilSeconds(milliseconds: int): int {
    -((-milliseconds) / 1000)
  }

  function Ttl(s: Store, k: Key, now: int): int {
    var live := Live(Entries(s, k), now);
    if live == [] then -1 else CeilSeconds(Earliest(live) - now)
  }

  // ----- runs of atomic operations -----

  datatype Op =
    | Call(key: Key, window: int, now: int)
    | Query(key: Key, now: int)
    | Sweep(now: int)

  function Apply(s: Store, op: Op): Store {
    match op
    case Call(k, w, now) => Increment(s, k, w, now)
    case Query(_, _) => s
    case Sweep(now) => Cleanup(s, now)
  }

  function After(ops: seq<Op>): Store {
    if ops == [] then map[] else Apply(After(ops[..|ops| - 1]), ops[|ops| - 1])
  }

  /** The times at which the key was called. */
  function Calls(ops: seq<Op>, k: Key): seq<int> {
    if ops == [] then []
    else
      var op := ops[|ops| - 1];
      Calls(ops[..|ops| - 1], k) + if op.Call? && op.key == k then [op.now] else []
  }

  /** How many of the times are later than `after`. */
  function CountAfter(times: seq<int>, after: int): nat {
    if times == [] then 0
    else CountAfter(times[..|times| - 1], after) + if times[|times| - 1] > after then 1 else 0
  }

  ghost predicate FixedWindow(ops: seq<Op>, k: Key, w: int) {
    forall i | 0 <= i < |ops| && ops[i].Call? && ops[i].key == k :: ops[i].window == w
  }

  ghost predicate UpTo(ops: seq<Op>, now: int) {
    forall i | 0 <= i < |ops| :: ops[i].now <= now
  }

  ghost predicate ClockNeverGoesBack(ops: seq<Op>) {
    forall i, j | 0 <= i < j < |ops| :: ops[i].now <= ops[j].now
  }

  lemma LiveSnoc(entries: seq<Entry>, e: Entry, now: int)
    ensures Live(entries + [e], now) == if e.resetAt > now then Live(entries, now) + [e] else Live(entries, now)
  {
    assert (entries + [e])[..|entries|] == entries;
  }

  /** Filtering early loses nothing a later filter keeps. */
  lemma {:induction false} LiveLater(entries: seq<Entry>, now: int, later: int)
    requires now <= later
    ensures Live(Live(entries, now), later) == Live(entries, later)
  {
    if entries != [] {
      var e := entries[|entries| - 1];
      LiveLater(entries[..|entries| - 1], now, later);
      LiveSnoc(Live(entries[..|entries| - 1], now), e, later);
    }
  }

  function EntriesOf(times: seq<int>, w: int): seq<Entry> {
    if times == [] then [] else EntriesOf(times[..|times| - 1], w) + [Entry(1, times[|times| - 1] + w * 1000)]
  }

  lemma {:induction false} LiveEntriesOf(times: seq<int>, w: int, now: int)
    ensures |Live(EntriesOf(times, w), now)| == CountAfter(times, now - w * 1000)
  {
    if times != [] {
      LiveEntriesOf(times[..|times| - 1], w, now);
      LiveSnoc(EntriesOf(times[..|times| - 1], w), Entry(1, times[|times| - 1] + w * 1000), now);
    }
  }

  lemma CleanupEntries(s: Store, now: int, k: Key)
    ensures Entries(Cleanup(s, now), k) == Live(Entries(s, k), now)
  {
  }

  lemma AfterAppend(ops: seq<Op>, op: Op, k: Key)
    ensures After(ops + [op]) == Apply(After(ops), op)
    ensures Calls(ops + [op], k) == if op.Call? && op.key == k then Calls(ops, k) + [op.now] else Calls(ops, k)
  {
    assert (ops + [op])[..|ops|] == ops;
  }

  lemma LiveAfterCall(entries: seq<Entry>, times: seq<int>, w: int, t: int, now: int)
    requires Live(entries, now) == Live(EntriesOf(times, w), now) && t <= now
    ensures Live(Live(entries, t) + [Entry(1, t + w * 1000)], now) == Live(EntriesOf(times + [t], w), now)
  {
    var e := Entry(1, t + w * 1000);
    assert EntriesOf(times + [t], w) == EntriesOf(times, w) + [e] by { assert (times + [t])[..|times|] == times; }
    hide Live, EntriesOf;
    LiveSnoc(Live(entries, t), e, now);
    LiveLater(entries, t, now);
    LiveSnoc(EntriesOf(times, w), e, now);
  }

  lemma LogStep(s: Store, times: seq<int>, op: Op, k: Key, w: int, now: int)
    requires Live(Entries(s, k), now) == Live(EntriesOf(times, w), now)
    requires op.now <= now && (op.Call? && op.key == k ==> op.window == w)
    ensures Live(Entries(Apply(s, op), k), now) ==
      Live(EntriesOf(if op.Call? && op.key == k then times + [op.now] else times, w), now)
  {
    hide Live, EntriesOf, Cleanup;
    if op.Sweep? {
      CleanupEntries(s, op.now, k);
      LiveLater(Entries(s, k), op.now, now);
    } else if op.Call? && op.key == k {
      LiveAfterCall(Entries(s, k), times, w, op.now, now);
    }
  }

  /** The live entries of a key are those of its calls, whatever sweeps and other keys did. */
  lemma {:induction false} LiveIsLog(ops: seq<Op>, k: Key, w: int, now: int)
    requires FixedWindow(ops, k, w) && UpTo(ops, now)
    ensures Live(Entries(After(ops), k), now) == Live(EntriesOf(Calls(ops, k), w), now)
  {
    if ops != [] {
      hide Live, Entries, EntriesOf, After, Calls, Apply;
      var before, op := ops[..|ops| - 1], ops[|ops| - 1];
      assert ops == before + [op];
      LiveIsLog(before, k, w, now);
      LogStep(After(before), Calls(before, k), op, k, w, now);
      AfterAppend(before, op, k);
    }
  }

  /** The number `increment` returns: the entries its own call leaves stored. */
  function Returned(ops: seq<Op>): nat
    requires ops != [] && ops[|ops| - 1].Call?
  {
    |Entries(After(ops), ops[|ops| - 1].key)|
  }

  /** `increment` counts exactly the calls of its key in the window that ends with it, its own included. */
  lemma ReturnedIsWindowCount(ops: seq<Op>, w: int)
    requires ops != [] && ops[|ops| - 1].Call? && w >= 1
    requires FixedWindow(ops, ops[|ops| - 1].key, w) && UpTo(ops, ops[|ops| - 1].now)
    ensures Returned(ops) == CountAfter(Calls(ops, ops[|ops| - 1].key), ops[|ops| - 1].now - w * 1000)
  {
    hide Live, EntriesOf, After, Calls, CountAfter;
    var before, op := ops[..|ops| - 1], ops[|ops| - 1];
    assert ops == before + [op];
    var k, now := op.key, op.now;
    LiveIsLog(before, k, w, now);
    LiveEntriesOf(Calls(before, k), w, now);
    AfterAppend(before, op, k);
    CountAfterAppend(Calls(before, k), now, now - w * 1000);
  }

  lemma CountAfterAppend(times: seq<int>, t: int, after: int)
    ensures CountAfter(times + [t], after) == CountAfter(times, after) + if t > after then 1 else 0
  {
    assert (times + [t])[..|times|] == times;
  }

  // ----- the limit -----

  /** The calls of the key at times in (lo, hi] that got a number within the limit. */
  function Passed(ops: seq<Op>, k: Key, limit: int, lo: int, hi: int): nat {
    if ops == [] then 0
    else
      var op := ops[|ops| - 1];
      Passed(ops[..|ops| - 1], k, limit, lo, hi)
      + if op.Call? && op.key == k && lo < op.now <= hi && Returned(ops) <= limit then 1 else 0
  }

  lemma {:induction false} PassedAreCalls(ops: seq<Op>, k: Key, limit: int, lo: int, hi: int, after: int)
    requires after <= lo
    ensures Passed(ops, k, limit, lo, hi) <= CountAfter(Calls(ops, k), after)
  {
    hide Returned, CountAfter;
    if ops == [] {
      assert Calls(ops, k) == [];
    } else {
      var before, op := ops[..|ops| - 1], ops[|ops| - 1];
      PassedAreCalls(before, k, limit, lo, hi, after);
      AfterAppend(before, op, k);
      assert ops == before + [op];
      CountAfterAppend(Calls(before, k), op.now, after);
    }
  }

  /** In no window of the key's length do more calls pass than the limit allows, although rejected ones count too. */
  lemma {:induction false} WindowLimit(ops: seq<Op>, k: Key, w: int, limit: nat, end: int)
    requires w >= 1 && FixedWindow(ops, k, w) && ClockNeverGoesBack(ops)
    ensures Passed(ops, k, limit, end - w * 1000, end) <= limit
  {
    if ops != [] {
      var before, op := ops[..|ops| - 1], ops[|ops| - 1];
      if op.Call? && op.key == k && end - w * 1000 < op.now <= end && Returned(ops) <= limit {
        ReturnedIsWindowCount(ops, w);
        PassedAreCalls(ops, k, limit, end - w * 1000, end, op.now - w * 1000);
      } else {
        WindowLimit(before, k, w, limit, end);
      }
    }
  }

  // ----- cleanup is invisible -----

  function NoSweeps(ops: seq<Op>): seq<Op> {
    if ops == [] then []
    else
      var op := ops[|ops| - 1];
      NoSweeps(ops[..|ops| - 1]) + if op.Sweep? then [] else [op]
  }

  /** What one operation returns: a call its count, a query the time to live, a sweep nothing. */
  function Output(s: Store, op: Op): seq<int> {
    match op
    case Call(k, _, _) => [|Entries(Apply(s, op), k)|]
    case Query(k, now) => [Ttl(s, k, now)]
    case Sweep(_) => []
  }

  /** What the operations returned, in order. */
  function Outputs(ops: seq<Op>): seq<int> {
    if ops == [] then [] else Outputs(ops[..|ops| - 1]) + Output(After(ops[..|ops| - 1]), ops[|ops| - 1])
  }

  lemma LiveAfterBoth(a: seq<Entry>, b: seq<Entry>, e: Entry, t: int, now: int)
    requires Live(a, now) == Live(b, now) && t <= now
    ensures Live(Live(a, t) + [e], now) == Live(Live(b, t) + [e], now)
  {
    hide Live;
    LiveSnoc(Live(a, t), e, now);
    LiveSnoc(Live(b, t), e, now);
    LiveLater(a, t, now);
    LiveLater(b, t, now);
  }

  lemma NoSweepsAppend(ops: seq<Op>, op: Op)
    ensures NoSweeps(ops + [op]) == if op.Sweep? then NoSweeps(ops) else NoSweeps(ops) + [op]
  {
    assert (ops + [op])[..|ops|] == ops;
  }

  /** One more operation on both stores, a sweep on the first alone. */
  lemma SameLiveStep(s: Store, t: Store, op: Op, k: Key, now: int)
    requires Live(Entries(s, k), now) == Live(Entries(t, k), now) && op.now <= now
    ensures var u := if op.Sweep? then t else Apply(t, op);
      Live(Entries(Apply(s, op), k), now) == Live(Entries(u, k), now)
  {
    hide Live, Cleanup;
    if op.Sweep? {
      CleanupEntries(s, op.now, k);
      LiveLater(Entries(s, k), op.now, now);
    } else if op.Call? && op.key == k {
      LiveAfterBoth(Entries(s, k), Entries(t, k), Entry(1, op.now + op.window * 1000), op.now, now);
    }
  }

  lemma {:induction false} SameLive(ops: seq<Op>, k: Key, now: int)
    requires UpTo(ops, now)
    ensures Live(Entries(After(ops), k), now) == Live(Entries(After(NoSweeps(ops)), k), now)
  {
    if ops != [] {
      hide After, NoSweeps, Live, Entries, Calls, Apply;
      var before, op := ops[..|ops| - 1], ops[|ops| - 1];
      assert ops == before + [op];
      SameLive(before, k, now);
      NoSweepsAppend(before, op);
      AfterAppend(before, op, k);
      AfterAppend(NoSweeps(before), op, k);
      SameLiveStep(After(before), After(NoSweeps(before)), op, k, now);
    }
  }

  lemma OutputsAppend(ops: seq<Op>, op: Op)
    ensures Outputs(ops + [op]) == Outputs(ops) + Output(After(ops), op)
  {
    assert (ops + [op])[..|ops|] == ops;
  }

  lemma SameOutput(s: Store, t: Store, op: Op)
    requires !op.Sweep? ==> Live(Entries(s, op.key), op.now) == Live(Entries(t, op.key), op.now)
    ensures Output(s, op) == Output(t, op)
  {
    hide Live, Earliest;
  }

  /** Sweeping, wherever it happens in a run, changes nothing any call or query returns. */
  lemma {:induction false} CleanupInvisible(ops: seq<Op>)
    requires ClockNeverGoesBack(ops)
    ensures Outputs(ops) == Outputs(NoSweeps(ops))
  {
    if ops != [] {
      hide After, NoSweeps, Live, Outputs, Output, Entries;
      var before, op := ops[..|ops| - 1], ops[|ops| - 1];
      assert ops == before + [op];
      CleanupInvisible(before);
      NoSweepsAppend(before, op);
      OutputsAppend(before, op);
      if op.Sweep? {
        SweepReturnsNothing(After(before), op);
      } else {
        OutputsAppend(NoSweeps(before), op);
        SameLive(before, op.key, op.now);
        SameOutput(After(before), After(NoSweeps(before)), op);
      }
    }
  }

  lemma SweepReturnsNothing(s: Store, op: Op)
    requires op.Sweep?
    ensures Output(s, op) == []
  {
  }

  // ----- time to live -----

  lemma {:induction false} EarliestIsLeast(entries: seq<Entry>) returns (i: nat)
    requires entries != []
    ensures i < |entries| && entries[i].resetAt == Earliest(entries)
    ensures forall j | 0 <= j < |entries| :: Earliest(entries) <= entries[j].resetAt
  {
    var n := |entries| - 1;
    i := n;
    if n > 0 {
      var j := EarliestIsLeast(entries[..n]);
      if entries[n].resetAt >= entries[j].resetAt { i := j; }
      assert forall x | 0 <= x < n :: entries[x] == entries[..n][x];
    }
  }

  lemma {:induction false} LiveShrinks(entries: seq<Entry>, later: int)
    ensures |Live(entries, later)| <= |entries|
    ensures forall e | e in Live(entries, later) :: e in entries && e.resetAt > later
    ensures (exists i :: 0 <= i < |entries| && entries[i].resetAt <= later) ==> |Live(entries, later)| < |entries|
  {
    if entries != [] {
      var n := |entries| - 1;
      LiveShrinks(entries[..n], later);
      if i :| 0 <= i < |entries| && entries[i].resetAt <= later {
        if i < n { assert entries[..n][i].resetAt <= later; }
      }
    }
  }

  lemma {:induction false} EntriesOfBounded(times: seq<int>, w: int, now: int)
    requires forall i | 0 <= i < |times| :: times[i] <= now
    ensures forall e | e in EntriesOf(times, w) :: e.resetAt <= now + w * 1000
  {
    if times != [] { EntriesOfBounded(times[..|times| - 1], w, now); }
  }

  lemma {:induction false} CallsUpTo(ops: seq<Op>, k: Key, now: int)
    requires UpTo(ops, now)
    ensures forall i | 0 <= i < |Calls(ops, k)| :: Calls(ops, k)[i] <= now
  {
    if ops != [] { CallsUpTo(ops[..|ops| - 1], k, now); }
  }

  /**
   * While an entry is live the time to live is the least number of whole seconds, at least one and at most
   * the window, after which the live count is lower if no new call comes; with none live it is -1.
   */
  lemma TtlIsRight(ops: seq<Op>, k: Key, w: int, now: int)
    requires FixedWindow(ops, k, w) && UpTo(ops, now)
    ensures var s, ttl := After(ops), Ttl(After(ops), k, now);
      var live := Live(Entries(s, k), now);
      if live == [] then ttl == -1
      else
        && 1 <= ttl <= w && |Live(Entries(s, k), now + ttl * 1000)| < |live|
        && forall later | now <= later <= now + (ttl - 1) * 1000 :: Live(Entries(s, k), later) == live
  {
    hide After, Calls, EntriesOf, CeilSeconds, Live, Earliest;
    var entries := Entries(After(ops), k);
    LiveIsLog(ops, k, w, now);
    CallsUpTo(ops, k, now);
    EntriesOfBounded(Calls(ops, k), w, now);
    LiveShrinks(EntriesOf(Calls(ops, k), w), now);
    TtlOfEntries(entries, w, now);
  }

  lemma CeilBounds(ms: int, w: int)
    requires 0 < ms <= w * 1000
    ensures 1 <= CeilSeconds(ms) <= w && (CeilSeconds(ms) - 1) * 1000 < ms <= CeilSeconds(ms) * 1000
  {
  }

  lemma {:induction false} AllLive(entries: seq<Entry>, now: int)
    requires forall j | 0 <= j < |entries| :: entries[j].resetAt > now
    ensures Live(entries, now) == entries
  {
    if entries != [] { AllLive(entries[..|entries| - 1], now); }
  }

  lemma TtlOfLive(live: seq<Entry>, w: int, now: int)
    requires live != [] && forall e | e in live :: now < e.resetAt <= now + w * 1000
    ensures var ttl := CeilSeconds(Earliest(live) - now);
      && 1 <= ttl <= w && |Live(live, now + ttl * 1000)| < |live|
      && forall later | now <= later <= now + (ttl - 1) * 1000 :: Live(live, later) == live
  {
    hide CeilSeconds, Live, Earliest;
    var i := EarliestIsLeast(live);
    assert live[i] in live;
    var ttl := CeilSeconds(Earliest(live) - now);
    CeilBounds(Earliest(live) - now, w);
    LiveShrinks(live, now + ttl * 1000);
    assert live[i].resetAt <= now + ttl * 1000;
    forall later | now <= later <= now + (ttl - 1) * 1000 ensures Live(live, later) == live {
      AllLive(live, later);
    }
  }

  lemma TtlOfEntries(entries: seq<Entry>, w: int, now: int)
    requires forall e | e in Live(entries, now) :: now < e.resetAt <= now + w * 1000
    ensures var live := Live(entries, now);
      live != [] ==>
        var ttl := CeilSeconds(Earliest(live) - now);
        && 1 <= ttl <= w && |Live(entries, now + ttl * 1000)| < |live|
        && forall later | now <= later <= now + (ttl - 1) * 1000 :: Live(entries, later) == live
  {
    hide CeilSeconds, Live, Earliest;
    var live := Live(entries, now);
    if live != [] {
      TtlOfLive(live, w, now);
      LiveLater(entries, now, now + CeilSeconds(Earliest(live) - now) * 1000);
      forall later | now <= later ensures Live(live, later) == Live(entries, later) {
        LiveLater(entries, now, later);
      }
    }
  }

  // ----- Redis -----

  /** A counter and the time it expires. */
  datatype Counter = Counter(count: nat, expiresAt: int)

  /** INCR then EXPIRE: an expired key starts again from zero, and every request renews the expiry. */
  function Incr(c: Counter, windowSeconds: int, now: int): Counter {
    Counter(if now >= c.expiresAt then 1 else c.count + 1, now + windowSeconds * 1000)
  }

  function RedisAfter(times: seq<int>, w: int): Counter
    requires times != []
  {
    var n := |times| - 1;
    if n == 0 then Counter(1, times[0] + w * 1000) else Incr(RedisAfter(times[..n], w), w, times[n])
  }

  lemma {:induction false} CountAfterMonotone(times: seq<int>, a: int, b: int)
    requires a <= b
    ensures CountAfter(times, b) <= CountAfter(times, a)
  {
    if times != [] { CountAfterMonotone(times[..|times| - 1], a, b); }
  }

  lemma {:induction false} CountAfterNone(times: seq<int>, after: int)
    requires forall i | 0 <= i < |times| :: times[i] <= after
    ensures CountAfter(times, after) == 0
  {
    if times != [] {
      CountAfterNone(times[..|times| - 1], after);
    }
  }

  /** For the same request times the Redis counter is never below the sliding count, so it admits no more. */
  lemma {:induction false} RedisIsStricter(times: seq<int>, w: int)
    requires times != [] && w >= 1 && forall i, j | 0 <= i < j < |times| :: times[i] <= times[j]
    ensures RedisAfter(times, w).expiresAt == times[|times| - 1] + w * 1000
    ensures RedisAfter(times, w).count >= CountAfter(times, times[|times| - 1] - w * 1000)
  {
    var n := |times| - 1;
    var before, now := times[..n], times[n];
    if n == 0 {
      assert before == [];
    } else {
      RedisIsStricter(before, w);
      if now >= times[n - 1] + w * 1000 {
        CountAfterNone(before, now - w * 1000);
      } else {
        CountAfterMonotone(before, times[n - 1] - w * 1000, now - w * 1000);
      }
    }
  }

  /** The Redis counter numbers the requests of the last unbroken stretch: all gaps shorter than the window. */
  lemma {:induction false} RedisCountsStretch(times: seq<int>, w: int)
    requires times != []
    ensures var n, c := |times|, RedisAfter(times, w).count;
      && 1 <= c <= n
      && RedisAfter(times, w).expiresAt == times[n - 1] + w * 1000
      && (forall i | n - c < i < n :: times[i] < times[i - 1] + w * 1000)
      && (c < n ==> times[n - c] >= times[n - c - 1] + w * 1000)
  {
    var n := |times| - 1;
    if n > 0 {
      RedisCountsStretch(times[..n], w);
      var c := RedisAfter(times, w).count;
      forall i | n + 1 - c < i < n + 1 ensures times[i] < times[i - 1] + w * 1000 {
        if i < n { assert times[..n][i] < times[..n][i - 1] + w * 1000; }
      }
    }
  }
}
