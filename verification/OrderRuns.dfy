/** What each row of `ordered_withdrawal` says after a run, open or claimed. */
module OrderRuns {
  import opened Common
  import opened StakeTables
  import opened StakeHistory
  import opened StakeRuns

  /** The pair's latest order. */
  ghost function LastOrder(log: seq<Event>, pool: Address, staker: Address): (r: Option<Event>)
    ensures r.Some? ==> r.value.OrderedWithdrawal?
  {
    if log == [] then None
    else
      var e := Last(log);
      if e.OrderedWithdrawal? && e.pool == pool && e.staker == staker then Some(e)
      else LastOrder(Init(log), pool, staker)
  }

  /** Epoch and block are those of the pair's latest order, the amount is what is pending. */
  ghost predicate SaysPending(o: Order, log: seq<Event>) {
    var last := LastOrder(log, o.pool, o.staker);
    last.Some? && o.epoch == last.value.epoch && o.block == last.value.block
    && o.amount == Pending(log, o.pool, o.staker)
  }

  /** Event `i` is the claim that closed the row, which says what was pending before it. */
  ghost predicate ClosedBy(o: Order, log: seq<Event>, i: int) {
    && 0 <= i < |log| && EffectiveClaim(log[..i], log[i])
    && log[i].pool == o.pool && log[i].staker == o.staker && o.claimedOn == Some(log[i].block)
    && SaysPending(o, log[..i])
  }

  ghost predicate RowSays(o: Order, log: seq<Event>) {
    if o.claimedOn.None? then SaysPending(o, log) else exists i :: ClosedBy(o, log, i)
  }

  ghost predicate RowsSay(orders: seq<Order>, log: seq<Event>) {
    forall j | 0 <= j < |orders| :: RowSays(orders[j], log)
  }

  ghost predicate HasRow(orders: seq<Order>, log: seq<Event>, i: int) {
    exists j :: 0 <= j < |orders| && ClosedBy(orders[j], log, i)
  }

  ghost predicate ClaimsHaveRows(orders: seq<Order>, log: seq<Event>) {
    forall i | 0 <= i < |log| && EffectiveClaim(log[..i], log[i]) :: HasRow(orders, log, i)
  }

  lemma ClosedStays(o: Order, log: seq<Event>, e: Event, i: int)
    requires 0 <= i < |log|
    ensures ClosedBy(o, log + [e], i) <==> ClosedBy(o, log, i)
  {
    assert (log + [e])[..i] == log[..i];
  }

  lemma ClosedRowSays(o: Order, log: seq<Event>, e: Event)
    requires RowSays(o, log) && o.claimedOn.Some?
    ensures RowSays(o, log + [e])
  {
    hide ClosedBy;
    var i :| ClosedBy(o, log, i);
    assert 0 <= i < |log| by { InLog(o, log, i); }
    ClosedStays(o, log, e, i);
  }

  lemma InLog(o: Order, log: seq<Event>, i: int)
    requires ClosedBy(o, log, i)
    ensures 0 <= i < |log|
  {
  }

  /** An event that neither orders for the row's pair nor takes effect as its claim. */
  lemma OpenRowSays(o: Order, log: seq<Event>, e: Event)
    requires RowSays(o, log) && o.claimedOn.None? && HasOpen(log, o.pool, o.staker)
    requires e.OrderedWithdrawal? || EffectiveClaim(log, e) ==> !(e.pool == o.pool && e.staker == o.staker)
    ensures RowSays(o, log + [e])
  {
    assert Init(log + [e]) == log && Last(log + [e]) == e;
    hide Known, HasOpen;
  }

  lemma ClaimsKeepRows(orders: seq<Order>, after: seq<Order>, log: seq<Event>, e: Event)
    requires ClaimsHaveRows(orders, log) && |orders| <= |after|
    requires forall j | 0 <= j < |orders| && orders[j].claimedOn.Some? :: after[j] == orders[j]
    requires EffectiveClaim(log, e) ==> HasRow(after, log + [e], |log|)
    ensures ClaimsHaveRows(after, log + [e])
  {
    var all := log + [e];
    hide Known, HasOpen, SaysPending;
    forall i | 0 <= i < |all| && EffectiveClaim(all[..i], all[i]) ensures HasRow(after, all, i) {
      assert all[..|log|] == log;
      if i < |log| {
        assert all[..i] == log[..i];
        assert HasRow(orders, log, i);
        var j :| 0 <= j < |orders| && ClosedBy(orders[j], log, i);
        ClosedStays(orders[j], log, e, i);
        assert after[j] == orders[j];
      }
    }
  }

  /** The order adds to the pair's open row, or starts one, in its own epoch and block. */
  lemma OrderSays(t: Tables, log: seq<Event>, e: Event)
    requires e.OrderedWithdrawal? && OrdersFollow(t.orders, log) && RowsSay(t.orders, log)
    requires ClaimsHaveRows(t.orders, log)
    ensures RowsSay(VisitOrdered(t, e).orders, log + [e]) && ClaimsHaveRows(VisitOrdered(t, e).orders, log + [e])
  {
    var orders, after, all := t.orders, VisitOrdered(t, e).orders, log + [e];
    OrderStep(log, e, e.pool, e.staker);
    assert PairFollows(orders, log, e.pool, e.staker);
    assert LastOrder(all, e.pool, e.staker) == Some(e) by { assert Last(all) == e; }
    var open := FindOpen(orders, e.pool, e.staker);
    if open.None? {
      NotOpen(orders, e.pool, e.staker);
      NoOpenOrder(log, e.pool, e.staker);
    } else {
      assert OpenAt(orders, open.value, e.pool, e.staker);
    }
    forall j | 0 <= j < |after| ensures RowSays(after[j], all) {
      hide HasOpen, Pending, RowsTotal, EverOrdered, FindOpen, LastOrder;
      if j < |orders| && open != Some(j) {
        assert RowSays(orders[j], log) && after[j] == orders[j];
        OtherRowSays(orders, log, e, j);
      }
    }
    ClaimsKeepRows(orders, after, log, e);
  }

  lemma NotOpen(orders: seq<Order>, pool: Address, staker: Address)
    requires FindOpen(orders, pool, staker).None?
    ensures forall i :: !OpenAt(orders, i, pool, staker)
  {
    hide FindOpen;
    forall i ensures !OpenAt(orders, i, pool, staker) {
      if 0 <= i < |orders| { assert orders[i] in orders; }
    }
  }

  /** A row the event does not reach: claimed, or open for another pair. */
  lemma OtherRowSays(orders: seq<Order>, log: seq<Event>, e: Event, j: nat)
    requires OrdersFollow(orders, log) && j < |orders| && RowSays(orders[j], log)
    requires e.OrderedWithdrawal? || EffectiveClaim(log, e) ==> !OpenAt(orders, j, e.pool, e.staker)
    ensures RowSays(orders[j], log + [e])
  {
    var o := orders[j];
    if o.claimedOn.Some? {
      ClosedRowSays(o, log, e);
    } else {
      assert PairFollows(orders, log, o.pool, o.staker);
      assert OpenAt(orders, j, o.pool, o.staker);
      OpenRowSays(o, log, e);
    }
  }

  /** An effective claim closes the pair's open row at its own block; any other leaves every row. */
  lemma ClaimSays(t: Tables, log: seq<Event>, e: Event)
    requires e.ClaimedWithdrawal? && Follows(t, log) && VisitClaimed(t, e).Some?
    requires RowsSay(t.orders, log) && ClaimsHaveRows(t.orders, log)
    ensures var after := VisitClaimed(t, e).value.orders;
      RowsSay(after, log + [e]) && ClaimsHaveRows(after, log + [e])
  {
    hide RecordChange, HistoryFollows;
    var orders, after, all := t.orders, VisitClaimed(t, e).value.orders, log + [e];
    assert all[..|log|] == log;
    assert PairFollows(orders, log, e.pool, e.staker);
    KnownHasLast(t.history, log, e.pool);
    ClaimIsEffective(t, log, e);
    var open := FindOpen(orders, e.pool, e.staker);
    hide HasOpen, Pending, RowsTotal, EverOrdered, FindOpen, LastOrder, Known, GetLast;
    if EffectiveClaim(log, e) {
      assert OpenAt(orders, open.value, e.pool, e.staker);
      assert RowSays(orders[open.value], log);
      assert ClosedBy(after[open.value], all, |log|);
    }
    forall j | 0 <= j < |after| ensures RowSays(after[j], all) {
      if !(EffectiveClaim(log, e) && open == Some(j)) {
        assert RowSays(orders[j], log) && after[j] == orders[j];
        OtherRowSays(orders, log, e, j);
      }
    }
    ClaimsKeepRows(orders, after, log, e);
  }

  lemma OthersSay(orders: seq<Order>, log: seq<Event>, e: Event)
    requires !e.OrderedWithdrawal? && !e.ClaimedWithdrawal? && OrdersFollow(orders, log)
    requires RowsSay(orders, log) && ClaimsHaveRows(orders, log)
    ensures RowsSay(orders, log + [e]) && ClaimsHaveRows(orders, log + [e])
  {
    forall j | 0 <= j < |orders| ensures RowSays(orders[j], log + [e]) {
      assert RowSays(orders[j], log);
      OtherRowSays(orders, log, e, j);
    }
    ClaimsKeepRows(orders, orders, log, e);
  }

  /**
   * After every run an open row carries epoch and block of its pair's latest order and the amount pending;
   * a claimed row carries the block of an effective claim and says what was pending before it, and every
   * effective claim has such a row.
   */
  lemma {:induction false} RunSays(log: seq<Event>, t: Tables)
    requires LogOrdered(log) && Run(log) == Some(t)
    ensures RowsSay(t.orders, log) && ClaimsHaveRows(t.orders, log)
  {
    if log != [] {
      hide VisitStakeChanged, VisitMovedStake, VisitOrdered, VisitClaimed, VisitGathered, Follows, RowsSay;
      hide ClaimsHaveRows, OrdersFollow;
      var before, e := Init(log), Last(log);
      assert log == before + [e];
      var s := Run(before).value;
      RunSays(before, s);
      RunFollows(before);
      assert OrdersFollow(s.orders, before) by { FollowsOrders(s, before); }
      if e.OrderedWithdrawal? {
        OrderSays(s, before, e);
      } else if e.ClaimedWithdrawal? {
        ClaimSays(s, before, e);
      } else {
        OrdersUntouched(s, e);
        OthersSay(s.orders, before, e);
      }
    }
  }

  lemma FollowsOrders(t: Tables, log: seq<Event>)
    requires Follows(t, log)
    ensures OrdersFollow(t.orders, log)
  {
  }

  lemma OrdersUntouched(t: Tables, e: Event)
    requires !e.OrderedWithdrawal? && !e.ClaimedWithdrawal? && Visit(t, e).Some?
    ensures Visit(t, e).value.orders == t.orders
  {
    hide RecordChange, GetLast;
  }
}
