/** The statement of `deleteDataFromBlock` on `ordered_withdrawal`: a row raised or claimed late is deleted whole. */
module OrderRollback {
  import opened Common
  import opened StakeTables
  import opened StakeHistory
  import opened StakeRuns

  predicate Survives(o: Order, b: int) {
    o.block < b && (o.claimedOn.None? || o.claimedOn.value < b)
  }

  function DeleteOrdersFrom(orders: seq<Order>, b: int): seq<Order> {
    if orders == [] then []
    else
      var before := DeleteOrdersFrom(Init(orders), b);
      if Survives(Last(orders), b) then before + [Last(orders)] else before
  }

  lemma {:induction false} DeletedCounts(orders: seq<Order>, b: int, o: Order)
    ensures multiset(DeleteOrdersFrom(orders, b))[o] == if Survives(o, b) then multiset(orders)[o] else 0
  {
    hide Survives;
    if orders != [] {
      DeletedCounts(Init(orders), b, o);
      assert orders == Init(orders) + [Last(orders)];
    }
  }

  /** The event raises the pair's order or closes it. */
  ghost predicate Touches(log: seq<Event>, e: Event, pool: Address, staker: Address) {
    (e.OrderedWithdrawal? || EffectiveClaim(log, e)) && e.pool == pool && e.staker == staker
  }

  ghost predicate TouchedSince(log: seq<Event>, n: nat, pool: Address, staker: Address)
    requires n <= |log|
    decreases |log|
  {
    n < |log| && (TouchedSince(Init(log), n, pool, staker) || Touches(Init(log), Last(log), pool, staker))
  }

  /** A row of the earlier table, as the later one has it: the same unless it was open and its pair was touched. */
  ghost predicate Kept(o: Order, later: Order, touched: bool, b: int) {
    if o.claimedOn.None? && touched then !Survives(later, b) && later.pool == o.pool && later.staker == o.staker
    else later == o
  }

  ghost predicate KeptAt(before: seq<Order>, after: seq<Order>, log: seq<Event>, n: nat, b: int, i: nat)
    requires n <= |log| && i < |before| <= |after|
  {
    Kept(before[i], after[i], TouchedSince(log, n, before[i].pool, before[i].staker), b)
  }

  ghost predicate Grown(before: seq<Order>, after: seq<Order>, log: seq<Event>, n: nat, b: int)
    requires n <= |log|
  {
    && |before| <= |after|
    && (forall i | 0 <= i < |before| :: KeptAt(before, after, log, n, b, i))
    && (forall i | |before| <= i < |after| :: after[i].block >= b)
  }

  /** An event leaves each row as it was or, if it touches the row's pair, moves it past `b`. */
  lemma VisitOrders(t: Tables, log: seq<Event>, e: Event, b: int)
    requires Follows(t, log) && Visit(t, e).Some? && b <= e.block
    ensures var orders, after := t.orders, Visit(t, e).value.orders;
      && |orders| <= |after|
      && (forall i | |orders| <= i < |after| :: after[i].block >= b)
      && (forall i | 0 <= i < |orders| ::
            && Kept(orders[i], after[i], Touches(log, e, orders[i].pool, orders[i].staker), b)
            && (after[i].block == orders[i].block || after[i].block >= b))
  {
    hide RecordChange, GetLast, Known, HasOpen;
    if e.OrderedWithdrawal? || e.ClaimedWithdrawal? {
      assert PairFollows(t.orders, log, e.pool, e.staker);
      if e.ClaimedWithdrawal? {
        KnownHasLast(t.history, log, e.pool);
        ClaimIsEffective(t, log, e);
      }
      var open := FindOpen(t.orders, e.pool, e.staker);
      forall i | 0 <= i < |t.orders| && IsOpenFor(t.orders[i], e.pool, e.staker) ensures open == Some(i) {
        assert OpenAt(t.orders, i, e.pool, e.staker);
        assert t.orders[i] in t.orders;
        assert OpenAt(t.orders, open.value, e.pool, e.staker);
      }
    }
  }

  lemma {:induction false} RunGrows(log: seq<Event>, n: nat, b: int, before: Tables, after: Tables)
    requires n <= |log| && LogOrdered(log) && Run(log[..n]) == Some(before) && Run(log) == Some(after)
    requires forall i | n <= i < |log| :: b <= log[i].block
    ensures Grown(before.orders, after.orders, log, n, b)
    decreases |log|
  {
    hide Visit, Follows, Touches;
    if n == |log| {
      assert log[..n] == log;
    } else {
      var earlier, e := Init(log), Last(log);
      assert log == earlier + [e] && earlier[..n] == log[..n];
      var t := Run(earlier).value;
      RunGrows(earlier, n, b, before, t);
      RunFollows(earlier);
      VisitOrders(t, earlier, e, b);
      forall i | 0 <= i < |before.orders|
        ensures KeptAt(before.orders, after.orders, log, n, b, i)
      {
        assert KeptAt(before.orders, t.orders, earlier, n, b, i);
      }
    }
  }

  lemma VisitBelow(t: Tables, e: Event, b: int)
    requires Visit(t, e).Some? && e.block < b
    requires forall i | 0 <= i < |t.orders| :: Survives(t.orders[i], b)
    ensures forall i | 0 <= i < |Visit(t, e).value.orders| :: Survives(Visit(t, e).value.orders[i], b)
  {
    hide RecordChange, GetLast, FindOpen;
  }

  lemma {:induction false} RunBelow(log: seq<Event>, b: int, t: Tables)
    requires Run(log) == Some(t) && forall i | 0 <= i < |log| :: log[i].block < b
    ensures forall i | 0 <= i < |t.orders| :: Survives(t.orders[i], b)
  {
    hide Visit, Survives;
    if log != [] {
      RunBelow(Init(log), b, Run(Init(log)).value);
      VisitBelow(Run(Init(log)).value, Last(log), b);
    }
  }

  lemma {:induction false} DeletedPrefix(orders: seq<Order>, m: nat, b: int)
    requires m <= |orders| && forall i | m <= i < |orders| :: !Survives(orders[i], b)
    ensures DeleteOrdersFrom(orders, b) == DeleteOrdersFrom(orders[..m], b)
    decreases |orders|
  {
    hide Survives;
    if m < |orders| {
      DeletedPrefix(Init(orders), m, b);
      assert Init(orders)[..m] == orders[..m];
    } else {
      assert orders[..m] == orders;
    }
  }

  ghost predicate AllSurvive(orders: seq<Order>, b: int) {
    forall i | 0 <= i < |orders| :: Survives(orders[i], b)
  }

  /** Deleting keeps a whole list exactly when every row of it survives. */
  lemma {:induction false} DeletedWhole(orders: seq<Order>, b: int)
    ensures |DeleteOrdersFrom(orders, b)| <= |orders|
    ensures |DeleteOrdersFrom(orders, b)| == |orders| <==> AllSurvive(orders, b)
    ensures AllSurvive(orders, b) ==> DeleteOrdersFrom(orders, b) == orders
  {
    hide Survives;
    if orders != [] {
      var rest, last := Init(orders), Last(orders);
      DeletedWhole(rest, b);
      assert orders == rest + [last];
      if Survives(last, b) {
        assert AllSurvive(orders, b) <==> AllSurvive(rest, b);
      } else {
        assert !AllSurvive(orders, b) by { assert !Survives(orders[|rest|], b); }
      }
    }
  }

  ghost predicate NoOpenPairTouched(log: seq<Event>, n: nat)
    requires n <= |log|
  {
    forall pool, staker :: HasOpen(log[..n], pool, staker) ==> !TouchedSince(log, n, pool, staker)
  }

  /**
   * The DELETE statement for block `b` brings back the orders of the first `n` events exactly when no pair with an
   * open order then ordered again or claimed afterwards.
   */
  lemma OrdersDeleted(log: seq<Event>, n: nat, b: int, before: Tables, after: Tables)
    requires n <= |log| && LogOrdered(log) && LogOrdered(log[..n])
    requires Run(log[..n]) == Some(before) && Run(log) == Some(after)
    requires forall i | 0 <= i < n :: log[i].block < b
    requires forall i | n <= i < |log| :: b <= log[i].block
    ensures DeleteOrdersFrom(after.orders, b) == before.orders <==> NoOpenPairTouched(log, n)
  {
    hide Run;
    RunGrows(log, n, b, before, after);
    RunBelow(log[..n], b, before);
    RunFollows(log[..n]);
    var m := |before.orders|;
    DeletedPrefix(after.orders, m, b);
    DeletedWhole(after.orders[..m], b);
    hide DeleteOrdersFrom, TouchedSince;
    if NoOpenPairTouched(log, n) {
      forall i | 0 <= i < m ensures after.orders[i] == before.orders[i] {
        OpenRowIsOpen(before, log[..n], i);
        assert KeptAt(before.orders, after.orders, log, n, b, i);
      }
      assert after.orders[..m] == before.orders;
    } else {
      var pool, staker :| HasOpen(log[..n], pool, staker) && TouchedSince(log, n, pool, staker);
      assert PairFollows(before.orders, log[..n], pool, staker);
      var i :| OpenAt(before.orders, i, pool, staker);
      assert KeptAt(before.orders, after.orders, log, n, b, i);
    }
  }

  lemma OpenRowIsOpen(t: Tables, log: seq<Event>, i: nat)
    requires Follows(t, log) && i < |t.orders|
    ensures t.orders[i].claimedOn.None? ==> HasOpen(log, t.orders[i].pool, t.orders[i].staker)
  {
    hide HistoryFollows;
    var o := t.orders[i];
    assert PairFollows(t.orders, log, o.pool, o.staker);
    if o.claimedOn.None? { assert OpenAt(t.orders, i, o.pool, o.staker); }
  }

  /** The orders are still those of the first `n` events exactly when the DELETE statement has nothing to delete. */
  lemma OrdersUnchanged(log: seq<Event>, n: nat, b: int, before: Tables, after: Tables)
    requires n <= |log| && LogOrdered(log)
    requires Run(log[..n]) == Some(before) && Run(log) == Some(after)
    requires forall i | 0 <= i < n :: log[i].block < b
    requires forall i | n <= i < |log| :: b <= log[i].block
    ensures after.orders == before.orders <==> AllSurvive(after.orders, b)
  {
    hide Run, TouchedSince;
    RunGrows(log, n, b, before, after);
    RunBelow(log[..n], b, before);
    if AllSurvive(after.orders, b) {
      assert |before.orders| < |after.orders| ==> !Survives(after.orders[|before.orders|], b);
      forall i | 0 <= i < |before.orders| ensures after.orders[i] == before.orders[i] {
        assert KeptAt(before.orders, after.orders, log, n, b, i);
        assert Survives(after.orders[i], b);
      }
    }
  }

  /** An order of block 5, raised at block 8: the statement for block 7 deletes all of it. */
  lemma RaisedOrderLost(pool: Address, staker: Address)
    ensures var log := [OrderedWithdrawal(5, pool, staker, 1, 10), OrderedWithdrawal(8, pool, staker, 1, 5)];
      && Run(log).Some? && Run(log[..1]).Some?
      && Run(log[..1]).value.orders == [Order(pool, staker, 1, 5, 10, None)]
      && DeleteOrdersFrom(Run(log).value.orders, 7) == []
  {
    var first, second := OrderedWithdrawal(5, pool, staker, 1, 10), OrderedWithdrawal(8, pool, staker, 1, 5);
    var log, o, raised := [first, second], Order(pool, staker, 1, 5, 10, None), Order(pool, staker, 1, 8, 15, None);
    assert log[..1] == [first] && [first][..0] == [];
    FirstOrder(first);
    RaisedOrder(o, second);
    hide VisitStakeChanged, VisitMovedStake, VisitOrdered, VisitClaimed, VisitGathered;
    assert Run([first]) == Some(EMPTY.(orders := [o]));
    assert Run(log) == Some(EMPTY.(orders := [raised]));
    assert Init([raised]) == [];
  }

  lemma FirstOrder(e: Event)
    requires e.OrderedWithdrawal?
    ensures VisitOrdered(EMPTY, e) == EMPTY.(orders := [Order(e.pool, e.staker, e.epoch, e.block, e.amount, None)])
  {
    assert EMPTY.orders == [] && EMPTY.orders + [Order(e.pool, e.staker, e.epoch, e.block, e.amount, None)] ==
      [Order(e.pool, e.staker, e.epoch, e.block, e.amount, None)];
  }

  lemma RaisedOrder(o: Order, e: Event)
    requires e.OrderedWithdrawal? && IsOpenFor(o, e.pool, e.staker)
    ensures VisitOrdered(EMPTY.(orders := [o]), e) ==
      EMPTY.(orders := [o.(epoch := e.epoch, block := e.block, amount := o.amount + e.amount)])
  {
    assert FindOpen([o], e.pool, e.staker) == Some(0);
    hide FindOpen;
    var raised := o.(epoch := e.epoch, block := e.block, amount := o.amount + e.amount);
    assert [o][0 := raised] == [raised];
  }
}
