/** The limiter object and the middleware's decision, db/express/src/middleware/rateLimiter.ts. */
module InMemoryRateLimiter {
  import opened RateLimiter

  datatype ApiKey = ApiKey(id: int, rateLimitPerMinute: int, rateLimitPerDay: int, isInternal: bool)

  datatype Decision = Bypassed | Admitted | OverMinute(retryAfter: int) | OverDay(retryAfter: int)

  /** The request that called at this position and the next got numbers within both its limits. */
  ghost predicate Fits(log: seq<Op>, i: nat, key: ApiKey) {
    && i + 1 < |log|
    && log[i].Call? && log[i].key == Minute(key.id) && Returned(log[..i + 1]) <= key.rateLimitPerMinute
    && log[i + 1].Call? && log[i + 1].key == Day(key.id) && Returned(log[..i + 2]) <= key.rateLimitPerDay
  }

  ghost predicate AllFit(log: seq<Op>, admitted: map<nat, ApiKey>) {
    forall i | i in admitted :: Fits(log, i, admitted[i])
  }

  lemma StillFit(before: seq<Op>, op: Op, admitted: map<nat, ApiKey>)
    requires AllFit(before, admitted)
    ensures AllFit(before + [op], admitted)
  {
    hide Returned;
    var log := before + [op];
    forall i | i in admitted ensures Fits(log, i, admitted[i]) {
      assert Fits(before, i, admitted[i]);
      assert log[..i + 1] == before[..i + 1] && log[..i + 2] == before[..i + 2];
    }
  }

  /** What the middleware's two calls add to the admitted requests. */
  ghost function Judged(log: seq<Op>, admitted: map<nat, ApiKey>, key: ApiKey,
                        minute: int, day: int): map<nat, ApiKey>
  {
    var minuteCall := log + [Call(Minute(key.id), 60, minute)];
    var dayCall := minuteCall + [Call(Day(key.id), 86400, day)];
    if Returned(minuteCall) <= key.rateLimitPerMinute && Returned(dayCall) <= key.rateLimitPerDay
    then admitted[|log| := key] else admitted
  }

  lemma JudgedFit(log: seq<Op>, admitted: map<nat, ApiKey>, key: ApiKey, minute: int, day: int)
    requires AllFit(log, admitted)
    ensures AllFit(log + [Call(Minute(key.id), 60, minute)] + [Call(Day(key.id), 86400, day)],
                   Judged(log, admitted, key, minute, day))
  {
    hide Returned;
    var minuteCall := log + [Call(Minute(key.id), 60, minute)];
    var dayCall := minuteCall + [Call(Day(key.id), 86400, day)];
    StillFit(log, Call(Minute(key.id), 60, minute), admitted);
    StillFit(minuteCall, Call(Day(key.id), 86400, day), admitted);
    assert dayCall[..|log| + 1] == minuteCall && dayCall[..|log| + 2] == dayCall;
  }

  // ----- the guarantee -----

  ghost predicate PassedAt(ops: seq<Op>, k: Key, limit: int, lo: int, hi: int, i: nat) {
    i < |ops| && ops[i].Call? && ops[i].key == k && lo < ops[i].now <= hi && Returned(ops[..i + 1]) <= limit
  }

  lemma PassedBefore(ops: seq<Op>, k: Key, limit: int, lo: int, hi: int, i: nat)
    requires PassedAt(ops, k, limit, lo, hi, i) && i < |ops| - 1
    ensures PassedAt(ops[..|ops| - 1], k, limit, lo, hi, i)
  {
    assert ops[..|ops| - 1][..i + 1] == ops[..i + 1];
  }

  lemma PassedLast(ops: seq<Op>, k: Key, limit: int, lo: int, hi: int)
    requires ops != []
    ensures var n := |ops| - 1;
      var before := Passed(ops[..n], k, limit, lo, hi);
      Passed(ops, k, limit, lo, hi) == if PassedAt(ops, k, limit, lo, hi, n) then before + 1 else before
  {
    assert ops[..|ops|] == ops;
  }

  lemma {:induction false} PositionsPassed(ops: seq<Op>, k: Key, limit: int, lo: int, hi: int,
                                           positions: set<nat>, offset: nat)
    requires forall i | i in positions :: i + offset < |ops| && PassedAt(ops, k, limit, lo, hi, i + offset)
    ensures |positions| <= Passed(ops, k, limit, lo, hi)
  {
    hide PassedAt;
    var n := |ops| - 1;
    if n < offset {
      assert forall i | i in positions :: i + offset > n;
      assert positions == {};
    } else {
      hide Passed;
      var earlier := positions - {n - offset};
      PassedLast(ops, k, limit, lo, hi);
      forall i | i in earlier ensures PassedAt(ops[..n], k, limit, lo, hi, i + offset) {
        PassedBefore(ops, k, limit, lo, hi, i + offset);
      }
      PositionsPassed(ops[..n], k, limit, lo, hi, earlier, offset);
      if n - offset in positions {
        assert PassedAt(ops, k, limit, lo, hi, n - offset + offset);
      } else {
        assert positions == earlier;
      }
    }
  }

  /** The positions of the key's requests admitted at times in (lo, hi], by their minute call. */
  ghost function AdmittedByMinute(log: seq<Op>, admitted: map<nat, ApiKey>, id: int, lo: int, hi: int): set<nat> {
    set i | i in admitted && admitted[i].id == id && i < |log| && lo < log[i].now <= hi
  }

  /** The positions of their day calls. */
  ghost function AdmittedByDay(log: seq<Op>, admitted: map<nat, ApiKey>, id: int, lo: int, hi: int): set<nat> {
    set i | i in admitted && admitted[i].id == id && i + 1 < |log| && lo < log[i + 1].now <= hi
  }

  /** In no minute are more of a key's requests admitted than its limit, the largest one if it changed. */
  lemma AdmittedPerMinute(log: seq<Op>, admitted: map<nat, ApiKey>, id: int, limit: nat, end: int)
    requires AllFit(log, admitted) && FixedWindow(log, Minute(id), 60) && ClockNeverGoesBack(log)
    requires forall i | i in admitted && admitted[i].id == id :: admitted[i].rateLimitPerMinute <= limit
    ensures |AdmittedByMinute(log, admitted, id, end - 60000, end)| <= limit
  {
    hide Returned, Passed;
    PositionsPassed(log, Minute(id), limit, end - 60000, end,
                    AdmittedByMinute(log, admitted, id, end - 60000, end), 0);
    WindowLimit(log, Minute(id), 60, limit, end);
  }

  /** Nor in any day more than its day limit. */
  lemma AdmittedPerDay(log: seq<Op>, admitted: map<nat, ApiKey>, id: int, limit: nat, end: int)
    requires AllFit(log, admitted) && FixedWindow(log, Day(id), 86400) && ClockNeverGoesBack(log)
    requires forall i | i in admitted && admitted[i].id == id :: admitted[i].rateLimitPerDay <= limit
    ensures |AdmittedByDay(log, admitted, id, end - 86400000, end)| <= limit
  {
    hide Returned, Passed;
    PositionsPassed(log, Day(id), limit, end - 86400000, end,
                    AdmittedByDay(log, admitted, id, end - 86400000, end), 1);
    WindowLimit(log, Day(id), 86400, limit, end);
  }

  class InMemoryRateLimiter {
    var store: Store
    /** The atomic operations so far; requests interleave only between them. */
    ghost var log: seq<Op>
    /** The admitted requests, by the position of their minute call in the log. */
    ghost var admitted: map<nat, ApiKey>

    constructor ()
      ensures Valid() && log == [] && admitted == map[]
    {
      store, log, admitted := map[], [], map[];
    }

    ghost predicate Valid()
      reads this
    {
      store == After(log) && AllFit(log, admitted)
    }

    method Increment(key: Key, windowSeconds: int, now: int) returns (count: nat)
      requires Valid()
      modifies this
      ensures Valid() && log == old(log) + [Call(key, windowSeconds, now)] && admitted == old(admitted)
      ensures count == Returned(log)
    {
      var resetAt := now + windowSeconds * 1000;
      var entries := if key in store then store[key] else [];
      entries := Live(entries, now);
      entries := entries + [Entry(1, resetAt)];
      store := store[key := entries];
      log := log + [Call(key, windowSeconds, now)];
      assert log[..|log| - 1] == old(log);
      StillFit(old(log), Call(key, windowSeconds, now), admitted);
      return |entries|;
    }

    method TimeToLive(key: Key, now: int) returns (seconds: int)
      requires Valid()
      modifies this`log
      ensures Valid() && log == old(log) + [Query(key, now)]
      ensures seconds == Ttl(After(old(log)), key, now)
    {
      var entries := if key in store then store[key] else [];
      var validEntries := Live(entries, now);
      log := log + [Query(key, now)];
      assert log[..|log| - 1] == old(log);
      StillFit(old(log), Query(key, now), admitted);
      if |validEntries| == 0 { return -1; }
      var earliestReset := Earliest(validEntries);
      return CeilSeconds(earliestReset - now);
    }

    method Sweep(now: int)
      requires Valid()
      modifies this
      ensures Valid() && log == old(log) + [Op.Sweep(now)] && admitted == old(admitted)
    {
      hide Live, AllFit;
      var rest := store.Keys;
      while rest != {}
        invariant rest <= old(store).Keys
        invariant forall k | k in rest :: k in store && store[k] == old(store)[k]
        invariant forall k :: k in store <==> k in old(store) && (k in rest || Live(old(store)[k], now) != [])
        invariant forall k | k in store && k !in rest :: store[k] == Live(old(store)[k], now)
        invariant log == old(log) && admitted == old(admitted)
        decreases rest
      {
        var key :| key in rest;
        var validEntries := Live(store[key], now);
        if |validEntries| == 0 {
          store := store - {key};
        } else {
          store := store[key := validEntries];
        }
        rest := rest - {key};
      }
      assert store == Cleanup(old(store), now);
      log := log + [Op.Sweep(now)];
      assert log[..|log| - 1] == old(log);
      StillFit(old(log), Op.Sweep(now), admitted);
    }

    method Charge(key: ApiKey, minute: int, day: int) returns (minuteCount: nat, dayCount: nat)
      requires Valid()
      modifies this
      ensures Valid() && admitted == old(admitted)
      ensures var minuteCall := old(log) + [Call(Minute(key.id), 60, minute)];
        && log == minuteCall + [Call(Day(key.id), 86400, day)]
        && minuteCount == Returned(minuteCall) && dayCount == Returned(log)
      ensures AllFit(log, Judged(old(log), old(admitted), key, minute, day))
    {
      hide Returned, After, AllFit, Judged;
      JudgedFit(log, admitted, key, minute, day);
      minuteCount := Increment(Minute(key.id), 60, minute);
      dayCount := Increment(Day(key.id), 86400, day);
    }

    /**
     * The middleware on the in-memory path: both counters are charged before either limit is tested.
     * `clock` holds the times its four operations read.
     */
    method Check(key: ApiKey, clock: seq<int>) returns (d: Decision)
      requires Valid() && |clock| == 4
      modifies this
      ensures Valid()
      ensures d.Bypassed? <==> key.isInternal && key.rateLimitPerMinute >= 999999
      ensures d.Bypassed? ==> log == old(log)
      ensures admitted ==
        if d.Bypassed? then old(admitted) else Judged(old(log), old(admitted), key, clock[0], clock[1])
      ensures !d.Bypassed? ==>
        var minuteCall := old(log) + [Call(Minute(key.id), 60, clock[0])];
        var dayCall := minuteCall + [Call(Day(key.id), 86400, clock[1])];
        && log == dayCall + [Query(Minute(key.id), clock[2])] + [Query(Day(key.id), clock[3])]
        && (d.Admitted? <==> Returned(minuteCall) <= key.rateLimitPerMinute && Returned(dayCall) <= key.rateLimitPerDay)
        && (d.OverMinute? <==> Returned(minuteCall) > key.rateLimitPerMinute)
        && (d.OverMinute? ==> d.retryAfter == Ttl(After(dayCall), Minute(key.id), clock[2]))
        && (d.OverDay? ==> d.retryAfter == Ttl(After(dayCall), Day(key.id), clock[3]))
    {
      if key.isInternal && key.rateLimitPerMinute >= 999999 { return Bypassed; }
      hide Returned, Ttl, After, AllFit, Judged;
      var minuteCount, dayCount := Charge(key, clock[0], clock[1]);
      ghost var called, judged := log, Judged(old(log), old(admitted), key, clock[0], clock[1]);
      var minuteTTL := TimeToLive(Minute(key.id), clock[2]);
      QueryKeeps(called, Minute(key.id), clock[2]);
      StillFit(called, Query(Minute(key.id), clock[2]), judged);
      ghost var asked := log;
      var dayTTL := TimeToLive(Day(key.id), clock[3]);
      StillFit(asked, Query(Day(key.id), clock[3]), judged);
      admitted := judged;
      if minuteCount > key.rateLimitPerMinute { return OverMinute(minuteTTL); }
      if dayCount > key.rateLimitPerDay { return OverDay(dayTTL); }
      return Admitted;
    }
  }

  lemma QueryKeeps(ops: seq<Op>, k: Key, now: int)
    ensures After(ops + [Query(k, now)]) == After(ops)
  {
    AfterAppend(ops, Query(k, now), k);
  }
}
