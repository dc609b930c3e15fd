/**
 * A committed block processed again: src/db/runFillDb.ts fails in its poll for new blocks, after the commit
 * and before it advances.
 */
module SecondPass {
  import opened Common
  import opened StakeTables
  import opened StakeHistory
  import opened StakeRuns

  /** All events of the block, none before the last one of the log. */
  ghost predicate OneBlock(log: seq<Event>, events: seq<Event>, b: int) {
    && (forall i | 0 <= i < |log| :: log[i].block <= b)
    && (forall i | 0 <= i < |events| :: events[i].block == b)
  }

  lemma AppendOrdered(log: seq<Event>, events: seq<Event>, b: int)
    requires LogOrdered(log) && OneBlock(log, events, b)
    ensures LogOrdered(log + events) && OneBlock(log + events, events, b)
  {
  }

  /** The changes the events make after the log. */
  ghost function Added(log: seq<Event>, events: seq<Event>, p: Address): seq<Change> {
    if events == [] then []
    else Added(log, Init(events), p) + EventChanges(log + Init(events), Last(events), p)
  }

  lemma {:induction false} AddedChanges(log: seq<Event>, events: seq<Event>, p: Address)
    ensures Changes(log + events, p) == Changes(log, p) + Added(log, events, p)
  {
    hide Known, EventChanges;
    if events == [] {
      assert log + events == log;
    } else {
      AddedChanges(log, Init(events), p);
      assert Init(log + events) == log + Init(events) && Last(log + events) == Last(events);
      var c, d := Added(log, Init(events), p), EventChanges(log + Init(events), Last(events), p);
      assert Changes(log + events, p) == Changes(log + Init(events), p) + d;
      assert Changes(log, p) + c + d == Changes(log, p) + (c + d);
    }
  }

  lemma {:induction false} AddedAt(log: seq<Event>, events: seq<Event>, p: Address, b: int)
    requires OneBlock(log, events, b)
    ensures forall ch | ch in Added(log, events, p) :: ch.block == b
  {
    if events != [] {
      AddedAt(log, Init(events), p, b);
      EventChangesBlock(log + Init(events), Last(events), p);
    }
  }

  /** The block commits again exactly when both passes together change no pool more than twice in it. */
  lemma CommitsAgain(log: seq<Event>, events: seq<Event>, b: int)
    requires LogOrdered(log) && OneBlock(log, events, b)
    ensures Run(log + events + events).Some? <==> forall p :: AtMostTwo(Changes(log + events + events, p))
  {
    AppendOrdered(log, events, b);
    AppendOrdered(log + events, events, b);
    RunFollows(log + events + events);
  }

  // ----- when the second pass changes nothing -----

  /** The event changes no stake row. */
  ghost predicate Idle(log: seq<Event>, e: Event) {
    match e
    case StakeChanged(_, _, _, _, _) => false
    case MovedStake(_, source, _, _, _) => !Known(log, source)
    case OrderedWithdrawal(_, _, _, _, _) => true
    case ClaimedWithdrawal(_, _, _, _) => !EffectiveClaim(log, e)
    case GatheredAbandoned(_, pool, _) => !Known(log, pool)
  }

  ghost predicate OrderIn(events: seq<Event>, pool: Address, staker: Address) {
    exists i :: 0 <= i < |events| && IsOrder(events[i], pool, staker)
  }

  predicate IsOrder(e: Event, pool: Address, staker: Address) {
    e.OrderedWithdrawal? && e.pool == pool && e.staker == staker
  }

  predicate IsClaim(e: Event, pool: Address, staker: Address) {
    e.ClaimedWithdrawal? && e.pool == pool && e.staker == staker
  }

  /**
   * Repeated after `log`, which ends with the same block's events, the event changes nothing: it moves,
   * gathers or claims on an unknown pool, claims what nobody ordered, or orders nothing.
   */
  ghost predicate Inert(log: seq<Event>, events: seq<Event>, e: Event) {
    match e
    case StakeChanged(_, _, _, _, _) => false
    case MovedStake(_, source, _, _, _) => !Known(log, source)
    case OrderedWithdrawal(_, _, _, _, amount) => amount == 0
    case ClaimedWithdrawal(_, pool, staker, _) =>
      !Known(log, pool) || (!HasOpen(log, pool, staker) && !OrderIn(events, pool, staker))
    case GatheredAbandoned(_, pool, _) => !Known(log, pool)
  }

  ghost predicate AllInert(log: seq<Event>, events: seq<Event>) {
    forall i | 0 <= i < |events| :: Inert(log, events, events[i])
  }

  lemma {:induction false} KnownStays(log: seq<Event>, events: seq<Event>, p: Address)
    requires Known(log, p)
    ensures Known(log + events, p)
  {
    if events == [] {
      assert log + events == log;
    } else {
      KnownStays(log, Init(events), p);
      assert Init(log + events) == log + Init(events);
    }
  }

  lemma PrefixNext(log: seq<Event>, events: seq<Event>, k: nat)
    requires k < |events|
    ensures log + events[..k + 1] == log + events[..k] + [events[k]]
    ensures Init(log + events[..k + 1]) == log + events[..k] && Last(log + events[..k + 1]) == events[k]
  {
    assert log + events[..k + 1] == log + events[..k] + [events[k]];
  }

  lemma KnownBy(log: seq<Event>, events: seq<Event>, k: nat, p: Address)
    requires k <= |events| && Known(log + events[..k], p)
    ensures Known(log + events, p)
  {
    KnownStays(log + events[..k], events[k..], p);
    assert log + events[..k] + events[k..] == log + events;
  }

  /** An open order stays open while no claim of its pair meets a known pool. */
  lemma {:induction false} OpenLasts(log: seq<Event>, events: seq<Event>, j: nat, k: nat,
                                     pool: Address, staker: Address)
    requires j <= k <= |events| && HasOpen(log + events[..j], pool, staker)
    requires forall m | j <= m < k && IsClaim(events[m], pool, staker) ::
      !Known(log + events[..m], pool)
    ensures HasOpen(log + events[..k], pool, staker)
    decreases k
  {
    hide Known;
    if j < k {
      OpenLasts(log, events, j, k - 1, pool, staker);
      PrefixNext(log, events, k - 1);
    }
  }

  lemma OrderOpens(log: seq<Event>, events: seq<Event>, j: nat, pool: Address, staker: Address)
    requires j < |events| && IsOrder(events[j], pool, staker)
    ensures HasOpen(log + events[..j + 1], pool, staker)
  {
    PrefixNext(log, events, j);
  }

  // ----- inert events change nothing -----

  /** The first pass left the pair of an inert block's order with an open row. */
  lemma InertOrderOpen(log: seq<Event>, events: seq<Event>, j: nat, pool: Address, staker: Address)
    requires j < |events| && IsOrder(events[j], pool, staker) && AllInert(log + events, events)
    ensures HasOpen(log + events, pool, staker)
  {
    OrderOpens(log, events, j, pool, staker);
    forall m | j + 1 <= m < |events| && IsClaim(events[m], pool, staker)
      ensures !Known(log + events[..m], pool)
    {
      assert Inert(log + events, events, events[m]);
      assert OrderIn(events, pool, staker);
      if Known(log + events[..m], pool) { KnownBy(log, events, m, pool); }
    }
    OpenLasts(log, events, j + 1, |events|, pool, staker);
    assert events[..|events|] == events;
  }

  /** Epoch and block of the pair's last order. */
  ghost function LastOrder(log: seq<Event>, pool: Address, staker: Address): Option<(int, int)> {
    if log == [] then None
    else
      var e := Last(log);
      if IsOrder(e, pool, staker) then Some((e.epoch, e.block)) else LastOrder(Init(log), pool, staker)
  }

  /** An open row has the epoch and block of its pair's last order. */
  ghost predicate Dated(orders: seq<Order>, log: seq<Event>) {
    forall i | 0 <= i < |orders| && orders[i].claimedOn.None? ::
      LastOrder(log, orders[i].pool, orders[i].staker) == Some((orders[i].epoch, orders[i].block))
  }

  lemma VisitDated(t: Tables, log: seq<Event>, e: Event)
    requires OrdersFollow(t.orders, log) && Dated(t.orders, log) && Visit(t, e).Some?
    ensures Dated(Visit(t, e).value.orders, log + [e])
  {
    hide RecordChange, GetLast, HasOpen, Pending, EverOrdered, RowsTotal;
    assert Init(log + [e]) == log && Last(log + [e]) == e;
    var a, b := t.orders, Visit(t, e).value.orders;
    if e.OrderedWithdrawal? {
      assert PairFollows(a, log, e.pool, e.staker);
      var open := FindOpen(a, e.pool, e.staker);
      forall i | 0 <= i < |a| && IsOpenFor(a[i], e.pool, e.staker) ensures open == Some(i) {
        assert a[i] in a;
        assert OpenAt(a, i, e.pool, e.staker) && OpenAt(a, open.value, e.pool, e.staker);
      }
    }
  }

  lemma {:induction false} RunDated(log: seq<Event>, t: Tables)
    requires LogOrdered(log) && Run(log) == Some(t)
    ensures Dated(t.orders, log)
  {
    hide Visit, Dated;
    if log == [] {
      NoOrdersDated();
    } else {
      var before, e := Init(log), Last(log);
      assert log == before + [e];
      RunFollows(before);
      RunDated(before, Run(before).value);
      VisitDated(Run(before).value, before, e);
    }
  }

  lemma NoOrdersDated()
    ensures Dated([], [])
  {
  }

  lemma {:induction false} LastOrderOfBlock(log: seq<Event>, events: seq<Event>, pool: Address, staker: Address)
    ensures var last := LastOrder(events, pool, staker);
      LastOrder(log + events, pool, staker) == if last.Some? then last else LastOrder(log, pool, staker)
  {
    if events == [] {
      assert log + events == log;
    } else {
      assert Init(log + events) == log + Init(events) && Last(log + events) == Last(events);
      LastOrderOfBlock(log, Init(events), pool, staker);
    }
  }

  /** The same but for the epochs and blocks of open orders. */
  ghost predicate Alike(t: Tables, u: Tables) {
    && u == t.(orders := u.orders) && |u.orders| == |t.orders|
    && forall i | 0 <= i < |t.orders| ::
         && u.orders[i] == t.orders[i].(epoch := u.orders[i].epoch, block := u.orders[i].block)
         && (t.orders[i].claimedOn.Some? ==> u.orders[i] == t.orders[i])
  }

  lemma InertVisit(t: Tables, log: seq<Event>, events: seq<Event>, e: Event, u: Tables)
    requires Follows(t, log) && Alike(t, u) && Inert(log, events, e)
    requires e.OrderedWithdrawal? ==> HasOpen(log, e.pool, e.staker)
    ensures Visit(u, e).Some? && Alike(t, Visit(u, e).value)
  {
    hide RecordChange, GetLast, Known, HasOpen, HistoryFollows;
    match e
    case MovedStake(_, source, _, _, _) => KnownHasLast(t.history, log, source);
    case GatheredAbandoned(_, pool, _) => KnownHasLast(t.history, log, pool);
    case OrderedWithdrawal(_, pool, staker, _, _) =>
      assert PairFollows(t.orders, log, pool, staker);
      var i :| OpenAt(t.orders, i, pool, staker);
      assert u.orders[i] in u.orders && IsOpenFor(u.orders[i], pool, staker);
    case ClaimedWithdrawal(_, pool, staker, _) =>
      KnownHasLast(t.history, log, pool);
      assert PairFollows(t.orders, log, pool, staker);
      var open := FindOpen(u.orders, pool, staker);
      if open.Some? { assert OpenAt(t.orders, open.value, pool, staker); }
  }

  lemma {:induction false} InertRun(log: seq<Event>, events: seq<Event>, k: nat, t: Tables)
    requires LogOrdered(log + events) && Run(log + events) == Some(t)
    requires AllInert(log + events, events) && k <= |events|
    ensures Run(log + events + events[..k]).Some? && Alike(t, Run(log + events + events[..k]).value)
  {
    hide Visit, Alike, Inert, Follows, HasOpen;
    var first := log + events;
    if k == 0 {
      assert first + events[..0] == first;
      AlikeItself(t);
    } else {
      InertRun(log, events, k - 1, t);
      PrefixNext(first, events, k - 1);
      RunFollows(first);
      var e := events[k - 1];
      if e.OrderedWithdrawal? { InertOrderOpen(log, events, k - 1, e.pool, e.staker); }
      InertVisit(t, first, events, e, Run(first + events[..k - 1]).value);
    }
  }

  lemma AlikeItself(t: Tables)
    ensures Alike(t, t)
  {
  }

  lemma InertUnchanged(log: seq<Event>, events: seq<Event>, b: int, t: Tables)
    requires LogOrdered(log) && OneBlock(log, events, b) && Run(log + events) == Some(t)
    requires AllInert(log + events, events)
    ensures Run(log + events + events) == Some(t)
  {
    hide Run, Inert;
    AppendOrdered(log, events, b);
    AppendOrdered(log + events, events, b);
    InertRun(log, events, |events|, t);
    assert events[..|events|] == events;
    var u := Run(log + events + events).value;
    RunDated(log + events, t);
    RunDated(log + events + events, u);
    forall i | 0 <= i < |t.orders| ensures u.orders[i] == t.orders[i] {
      var o := t.orders[i];
      LastOrderOfBlock(log, events, o.pool, o.staker);
      LastOrderOfBlock(log + events, events, o.pool, o.staker);
    }
    assert u.orders == t.orders;
  }

  // ----- and only they -----

  /** A further change at block `b` shows in the pool's rows. */
  lemma ChangeShows(h: StakeTable, g: StakeTable, p: Address, c: seq<Change>, d: seq<Change>, b: int)
    requires PoolRows(h, p, c) && PoolRows(g, p, c + d) && d != [] && Ordered(c)
    requires c != [] ==> Last(c).block <= b
    requires forall ch | ch in d :: ch.block == b
    ensures h != g
  {
    assert Last(c + d) == Last(d) && Last(d) in d;
    var tip, mark := StakeKey(b, b, p), StakeKey(b, b - 1, p);
    assert tip in g;
    if c != [] && Last(c).block == b {
      CountAtPositive(c, b);
      CountAppend(c, d, b);
      CountAll(d, b);
      assert CountAt(c + d, b) <= 2;
      assert mark in g && mark !in h;
    }
  }

  lemma {:induction false} CountAppend(c: seq<Change>, d: seq<Change>, b: int)
    ensures CountAt(c + d, b) == CountAt(c, b) + CountAt(d, b)
  {
    if d == [] {
      assert c + d == c;
    } else {
      assert Init(c + d) == c + Init(d) && Last(c + d) == Last(d);
      CountAppend(c, Init(d), b);
    }
  }

  lemma {:induction false} CountAll(d: seq<Change>, b: int)
    requires forall ch | ch in d :: ch.block == b
    ensures CountAt(d, b) == |d|
  {
    if d != [] {
      assert Last(d) in d;
      CountAll(Init(d), b);
    }
  }

  lemma NothingAdded(log: seq<Event>, events: seq<Event>, b: int, t: Tables, u: Tables, p: Address)
    requires LogOrdered(log) && OneBlock(log, events, b)
    requires Run(log) == Some(t) && Run(log + events) == Some(u) && u.history == t.history
    ensures Added(log, events, p) == []
  {
    hide Run, Changes, PoolRows;
    AppendOrdered(log, events, b);
    RunFollows(log);
    RunFollows(log + events);
    AddedChanges(log, events, p);
    AddedAt(log, events, p, b);
    var c := Changes(log, p);
    ChangesOrdered(log, p);
    if c != [] {
      assert Last(c) in c;
      LogNotEmpty(log, p);
    }
    if Added(log, events, p) != [] { ChangeShows(t.history, u.history, p, c, Added(log, events, p), b); }
  }

  lemma LogNotEmpty(log: seq<Event>, p: Address)
    requires Changes(log, p) != []
    ensures log != []
  {
  }

  lemma {:induction false} AddsNothing(log: seq<Event>, events: seq<Event>, k: nat)
    requires k < |events| && forall p :: Added(log, events, p) == []
    ensures Idle(log + events[..k], events[k])
    decreases |events|
  {
    hide Known, EffectiveClaim;
    var before, e := Init(events), Last(events);
    forall p ensures Added(log, before, p) == [] { assert Added(log, events, p) == []; }
    if k < |events| - 1 {
      AddsNothing(log, before, k);
      assert before[..k] == events[..k];
    } else {
      assert events[..k] == before;
      var q := if e.MovedStake? then e.source else e.pool;
      assert Added(log, events, q) == [];
      assert EventChanges(log + before, e, q) == [];
    }
  }

  ghost predicate AllIdle(log: seq<Event>, events: seq<Event>) {
    forall k | 0 <= k < |events| :: Idle(log + events[..k], events[k])
  }

  /** In a pass without changes an open order of a known pool stays open. */
  lemma {:induction false} IdleKeepsOpen(log: seq<Event>, events: seq<Event>, j: nat, k: nat,
                                         pool: Address, staker: Address)
    requires AllIdle(log, events) && j <= k <= |events| && Known(log, pool) && HasOpen(log + events[..j], pool, staker)
    ensures HasOpen(log + events[..k], pool, staker)
    decreases k
  {
    if j < k {
      IdleKeepsOpen(log, events, j, k - 1, pool, staker);
      KnownStays(log, events[..k - 1], pool);
      PrefixNext(log, events, k - 1);
      assert Idle(log + events[..k - 1], events[k - 1]);
      hide Known;
    }
  }

  /** So no order of a claimed pair is open at any point before the claim. */
  lemma NoneOpen(log: seq<Event>, events: seq<Event>, j: nat, m: nat)
    requires AllIdle(log, events) && j <= m < |events| && events[m].ClaimedWithdrawal? && Known(log, events[m].pool)
    ensures !HasOpen(log + events[..j], events[m].pool, events[m].staker)
  {
    var pool, staker := events[m].pool, events[m].staker;
    KnownStays(log, events[..m], pool);
    assert Idle(log + events[..m], events[m]);
    hide Known;
    if HasOpen(log + events[..j], pool, staker) { IdleKeepsOpen(log, events, j, m, pool, staker); }
  }

  /** A claim on a known pool that the second pass ignores: nobody had ordered, in this block or before. */
  lemma IgnoredClaim(log: seq<Event>, events: seq<Event>, m: nat)
    requires m < |events| && events[m].ClaimedWithdrawal? && AllIdle(log + events, events)
    ensures Inert(log + events, events, events[m])
  {
    var first, pool, staker := log + events, events[m].pool, events[m].staker;
    hide Known;
    if Known(first, pool) {
      assert first + events[..0] == first;
      NoneOpen(first, events, 0, m);
      forall j | 0 <= j < |events| ensures !IsOrder(events[j], pool, staker) {
        if IsOrder(events[j], pool, staker) { NoOrder(log, events, j, m); }
      }
    }
  }

  lemma NoOrder(log: seq<Event>, events: seq<Event>, j: nat, m: nat)
    requires j < |events| && m < |events| && events[m].ClaimedWithdrawal? && AllIdle(log + events, events)
    requires Known(log + events, events[m].pool)
    ensures !IsOrder(events[j], events[m].pool, events[m].staker)
  {
    var first, pool, staker := log + events, events[m].pool, events[m].staker;
    hide Known;
    if j < m {
      NoneOpen(first, events, j + 1, m);
      if IsOrder(events[j], pool, staker) { OrderOpens(first, events, j, pool, staker); }
    } else {
      assert first + events[..0] == first;
      NoneOpen(first, events, 0, m);
      if IsOrder(events[j], pool, staker) { LaterOrderOpen(log, events, j, pool, staker); }
    }
  }

  /** The order is still open after the first pass: a claim that closed it would take effect in the second. */
  lemma LaterOrderOpen(log: seq<Event>, events: seq<Event>, j: nat, pool: Address, staker: Address)
    requires j < |events| && IsOrder(events[j], pool, staker) && AllIdle(log + events, events)
    ensures HasOpen(log + events, pool, staker)
  {
    var first := log + events;
    hide Known;
    OrderOpens(first, events, j, pool, staker);
    OrderOpens(log, events, j, pool, staker);
    forall m | j + 1 <= m < |events| && IsClaim(events[m], pool, staker)
      ensures !Known(log + events[..m], pool)
    {
      if Known(log + events[..m], pool) {
        KnownBy(log, events, m, pool);
        NoneOpen(first, events, j + 1, m);
      }
    }
    OpenLasts(log, events, j + 1, |events|, pool, staker);
    assert events[..|events|] == events;
  }

  lemma {:induction false} OrderedSince(log: seq<Event>, events: seq<Event>, i: nat, pool: Address, staker: Address)
    requires i < |events| && IsOrder(events[i], pool, staker)
    ensures EverOrdered(log + events, pool, staker) >= EverOrdered(log, pool, staker) + events[i].amount
    decreases |events|
  {
    assert Init(log + events) == log + Init(events) && Last(log + events) == Last(events);
    if i < |events| - 1 {
      OrderedSince(log, Init(events), i, pool, staker);
    } else {
      OrderedGrows(log, Init(events), pool, staker);
    }
  }

  lemma {:induction false} OrderedGrows(log: seq<Event>, events: seq<Event>, pool: Address, staker: Address)
    ensures EverOrdered(log + events, pool, staker) >= EverOrdered(log, pool, staker)
  {
    if events == [] {
      assert log + events == log;
    } else {
      assert Init(log + events) == log + Init(events) && Last(log + events) == Last(events);
      OrderedGrows(log, Init(events), pool, staker);
    }
  }

  lemma UnchangedInert(log: seq<Event>, events: seq<Event>, b: int, t: Tables)
    requires LogOrdered(log) && OneBlock(log, events, b)
    requires Run(log + events) == Some(t) && Run(log + events + events) == Some(t)
    ensures AllInert(log + events, events)
  {
    hide Run, Known, HasOpen, EverOrdered, RowsTotal;
    var first := log + events;
    AppendOrdered(log, events, b);
    AppendOrdered(first, events, b);
    forall p ensures Added(first, events, p) == [] { NothingAdded(first, events, b, t, t, p); }
    forall k | 0 <= k < |events| ensures Idle(first + events[..k], events[k]) { AddsNothing(first, events, k); }
    assert AllIdle(first, events);
    RunFollows(first);
    RunFollows(first + events);
    forall i | 0 <= i < |events| ensures Inert(first, events, events[i]) {
      var e := events[i];
      assert Idle(first + events[..i], e);
      match e
      case MovedStake(_, source, _, _, _) =>
        if Known(first, source) { KnownStays(first, events[..i], source); }
      case GatheredAbandoned(_, pool, _) =>
        if Known(first, pool) { KnownStays(first, events[..i], pool); }
      case ClaimedWithdrawal(_, _, _, _) => IgnoredClaim(log, events, i);
      case OrderedWithdrawal(_, pool, staker, _, _) =>
        OrderedSince(first, events, i, pool, staker);
        assert PairFollows(t.orders, first, pool, staker);
        assert PairFollows(t.orders, first + events, pool, staker);
      case StakeChanged(_, _, _, _, _) =>
    }
  }

  /**
   * Processed again, a committed block leaves the stake tables as they are exactly when each of its events is
   * inert. Any other block is booked twice, or can never commit.
   */
  lemma UnchangedExactly(log: seq<Event>, events: seq<Event>, b: int, t: Tables)
    requires LogOrdered(log) && OneBlock(log, events, b) && Run(log + events) == Some(t)
    ensures Run(log + events + events) == Some(t) <==> AllInert(log + events, events)
  {
    hide Run, AllInert;
    if Run(log + events + events) == Some(t) { UnchangedInert(log, events, b, t); }
    if AllInert(log + events, events) { InertUnchanged(log, events, b, t); }
  }
}
