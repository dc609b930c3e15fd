/** src/eventsVisitor.ts writing the stake tables through src/db/database-persistent.ts, inside block transactions. */
module EventVisitor {
  import opened Common
  import opened StakeTables
  import opened StakeHistory
  import opened StakeRuns

  class DbManager {
    var stakeHistory: StakeTable
    var stakeDelegators: map<(Address, Address), int>
    var delegateStakers: set<Address>
    var orderedWithdrawals: seq<Order>

    constructor ()
      ensures State() == EMPTY
    {
      stakeHistory, stakeDelegators, delegateStakers, orderedWithdrawals := map[], map[], {}, [];
    }

    function State(): Tables
      reads this
    {
      Tables(stakeHistory, stakeDelegators, delegateStakers, orderedWithdrawals)
    }

    /** Fails on a duplicate primary key; a failed statement changes nothing. */
    method UpdateStakeHistory(k: StakeKey, toBlock: int) returns (ok: bool)
      modifies this`stakeHistory
      ensures ok <==> UpdateToBlock(old(stakeHistory), k, toBlock).Some?
      ensures stakeHistory == UpdateToBlock(old(stakeHistory), k, toBlock).GetOr(old(stakeHistory))
    {
      var moved := k.(toBlock := toBlock);
      if k !in stakeHistory || moved == k { return true; }
      if moved in stakeHistory { return false; }
      stakeHistory := (stakeHistory - {k})[moved := stakeHistory[k]];
      return true;
    }

    method InsertStakeHistoryRecord(k: StakeKey, amount: int) returns (ok: bool)
      modifies this`stakeHistory
      ensures ok <==> k !in old(stakeHistory)
      ensures stakeHistory == if ok then old(stakeHistory)[k := amount] else old(stakeHistory)
    {
      ok := k !in stakeHistory;
      if ok { stakeHistory := stakeHistory[k := amount]; }
    }

    method GetOrderWithdrawalEvent(pool: Address, staker: Address) returns (r: Option<nat>)
      ensures r == FindOpen(orderedWithdrawals, pool, staker)
    {
      var i := |orderedWithdrawals|;
      assert orderedWithdrawals[..i] == orderedWithdrawals;
      while i > 0
        invariant 0 <= i <= |orderedWithdrawals|
        invariant FindOpen(orderedWithdrawals, pool, staker) == FindOpen(orderedWithdrawals[..i], pool, staker)
      {
        i := i - 1;
        assert orderedWithdrawals[..i + 1][..i] == orderedWithdrawals[..i];
        if IsOpenFor(orderedWithdrawals[i], pool, staker) { return Some(i); }
      }
      return None;
    }

    method EnsureDelegateStaker(delegator: Address)
      modifies this`delegateStakers
      ensures delegateStakers == old(delegateStakers) + {delegator}
    {
      if delegator !in delegateStakers { delegateStakers := delegateStakers + {delegator}; }
    }
  }

  class EventVisitor {
    const db: DbManager

    constructor (db: DbManager)
      ensures this.db == db
    {
      this.db := db;
    }

    method SaveDelegatedStake(pool: Address, delegator: Address, amount: int)
      modifies db
      ensures db.State() == SaveDelegated(old(db.State()), pool, delegator, amount)
    {
      db.EnsureDelegateStaker(delegator);
      if (pool, delegator) in db.stakeDelegators {
        var newStakeAmount := db.stakeDelegators[(pool, delegator)] + amount;
        db.stakeDelegators := db.stakeDelegators[(pool, delegator) := newStakeAmount];
      } else {
        db.stakeDelegators := db.stakeDelegators[(pool, delegator) := amount];
      }
    }

    /** Close the pool's last row before `block` and insert the row of `block`. */
    method CloseAndInsert(last: StakeKey, block: int, amount: int) returns (ok: bool)
      requires GetLast(db.stakeHistory, last.node) == Some(last)
      modifies db`stakeHistory
      ensures var r := RecordChange(old(db.stakeHistory), last.node, block, amount - old(db.stakeHistory)[last]);
        (ok <==> r.Some?) && (ok ==> Some(db.stakeHistory) == r)
    {
      ok := db.UpdateStakeHistory(last, block - 1);
      if ok { ok := db.InsertStakeHistoryRecord(StakeKey(block, block, last.node), amount); }
    }

    /** The target's half of a move: its row may not exist yet. */
    method AddToPool(pool: Address, block: int, amount: int) returns (ok: bool)
      modifies db`stakeHistory
      ensures var r := RecordChange(old(db.stakeHistory), pool, block, amount);
        (ok <==> r.Some?) && (ok ==> Some(db.stakeHistory) == r)
    {
      var toPoolRecord := GetLast(db.stakeHistory, pool);
      var toPoolUpdatedStake := 0;
      if toPoolRecord.Some? {
        toPoolUpdatedStake := db.stakeHistory[toPoolRecord.value];
        ok := db.UpdateStakeHistory(toPoolRecord.value, block - 1);
        if !ok { return; }
      }
      toPoolUpdatedStake := toPoolUpdatedStake + amount;
      ok := db.InsertStakeHistoryRecord(StakeKey(block, block, pool), toPoolUpdatedStake);
    }

    method VisitStakeChangedEvent(e: Event) returns (ok: bool)
      requires e.StakeChanged?
      modifies db
      ensures ok <==> Visit(old(db.State()), e).Some?
      ensures ok ==> Some(db.State()) == Visit(old(db.State()), e)
    {
      var changeAmount := if e.withdrew then -e.Wei() else e.Wei();
      if e.pool != e.staker {
        db.EnsureDelegateStaker(e.staker);
        SaveDelegatedStake(e.pool, e.staker, changeAmount);
      }
      var record := GetLast(db.stakeHistory, e.pool);
      if record.None? {
        ok := db.InsertStakeHistoryRecord(StakeKey(e.block, e.block, e.pool), e.amount);
        return;
      }
      var newAmount := db.stakeHistory[record.value] + changeAmount;
      ok := CloseAndInsert(record.value, e.block, newAmount);
    }

    method VisitMovedStakeEvent(e: Event) returns (ok: bool)
      requires e.MovedStake?
      modifies db
      ensures ok <==> Visit(old(db.State()), e).Some?
      ensures ok ==> Some(db.State()) == Visit(old(db.State()), e)
    {
      hide RecordChange;
      var fromPoolRecord := GetLast(db.stakeHistory, e.source);
      if fromPoolRecord.None? { return true; }
      var fromPoolUpdatedStake := db.stakeHistory[fromPoolRecord.value] - e.amount;
      ok := CloseAndInsert(fromPoolRecord.value, e.block, fromPoolUpdatedStake);
      if !ok { return; }
      ok := AddToPool(e.target, e.block, e.amount);
      if !ok { return; }
      if e.source != e.staker { SaveDelegatedStake(e.source, e.staker, -e.Wei()); }
      if e.target != e.staker { SaveDelegatedStake(e.target, e.staker, e.amount); }
    }

    method VisitOrderedWithdrawalEvent(e: Event)
      requires e.OrderedWithdrawal?
      modifies db
      ensures db.State() == VisitOrdered(old(db.State()), e)
    {
      var existingOrder := db.GetOrderWithdrawalEvent(e.pool, e.staker);
      if existingOrder.None? {
        db.orderedWithdrawals := db.orderedWithdrawals + [Order(e.pool, e.staker, e.epoch, e.block, e.amount, None)];
        return;
      }
      var i := existingOrder.value;
      var newAmount := db.orderedWithdrawals[i].amount + e.amount;
      db.orderedWithdrawals := db.orderedWithdrawals[
        i := db.orderedWithdrawals[i].(epoch := e.epoch, block := e.block, amount := newAmount)];
    }

    method VisitClaimedOrderedWithdrawalEvent(e: Event) returns (ok: bool)
      requires e.ClaimedWithdrawal?
      modifies db
      ensures ok <==> Visit(old(db.State()), e).Some?
      ensures ok ==> Some(db.State()) == Visit(old(db.State()), e)
    {
      var existingOrder := db.GetOrderWithdrawalEvent(e.pool, e.staker);
      var stakeRecord := GetLast(db.stakeHistory, e.pool);
      if existingOrder.None? || stakeRecord.None? { return true; }
      var i := existingOrder.value;
      db.orderedWithdrawals := db.orderedWithdrawals[i := db.orderedWithdrawals[i].(claimedOn := Some(e.block))];
      var newAmount := db.stakeHistory[stakeRecord.value] - e.amount;
      ok := CloseAndInsert(stakeRecord.value, e.block, newAmount);
    }

    method VisitGatherAbandonedStakesEvent(e: Event) returns (ok: bool)
      requires e.GatheredAbandoned?
      modifies db
      ensures ok <==> Visit(old(db.State()), e).Some?
      ensures ok ==> Some(db.State()) == Visit(old(db.State()), e)
    {
      var record := GetLast(db.stakeHistory, e.pool);
      if record.None? { return true; }
      var stakeAmount := db.stakeHistory[record.value] - e.amount;
      ok := CloseAndInsert(record.value, e.block, stakeAmount);
    }

    method Accept(e: Event) returns (ok: bool)
      modifies db
      ensures ok <==> Visit(old(db.State()), e).Some?
      ensures ok ==> Some(db.State()) == Visit(old(db.State()), e)
    {
      match e
      case StakeChanged(_, _, _, _, _) => ok := VisitStakeChangedEvent(e);
      case MovedStake(_, _, _, _, _) => ok := VisitMovedStakeEvent(e);
      case OrderedWithdrawal(_, _, _, _, _) => VisitOrderedWithdrawalEvent(e); ok := true;
      case ClaimedWithdrawal(_, _, _, _) => ok := VisitClaimedOrderedWithdrawalEvent(e);
      case GatheredAbandoned(_, _, _) => ok := VisitGatherAbandonedStakesEvent(e);
    }

    /** processEvents, up to the first statement that fails. */
    method ProcessEvents(events: seq<Event>, ghost log: seq<Event>) returns (ok: bool)
      requires Run(log) == Some(db.State())
      modifies db
      ensures ok <==> Run(log + events).Some?
      ensures ok ==> Run(log + events) == Some(db.State())
    {
      hide Visit;
      var i := 0;
      assert log + events[..0] == log;
      while i < |events|
        invariant 0 <= i <= |events|
        invariant Run(log + events[..i]) == Some(db.State())
      {
        RunNext(log, events, i);
        ok := Accept(events[i]);
        if !ok {
          FailedStaysFailed(log + events[..i + 1], events[i + 1..]);
          assert log + events[..i + 1] + events[i + 1..] == log + events;
          return;
        }
        i := i + 1;
      }
      assert events[..i] == events;
      ok := true;
    }

    /**
     * The events of one block in its transaction: they commit exactly when no pool has changed three
     * times in one block, and an aborted block leaves the tables as they were.
     */
    method ExecuteBlock(events: seq<Event>, ghost log: seq<Event>) returns (ok: bool)
      requires LogOrdered(log + events) && Run(log) == Some(db.State())
      modifies db
      ensures ok <==> forall p :: AtMostTwo(Changes(log + events, p))
      ensures ok ==> Run(log + events) == Some(db.State()) && Follows(db.State(), log + events)
      ensures !ok ==> db.State() == old(db.State())
    {
      hide Run, Follows, AtMostTwo, LogOrdered;
      var history, delegators, stakers, orders :=
        db.stakeHistory, db.stakeDelegators, db.delegateStakers, db.orderedWithdrawals;
      ok := ProcessEvents(events, log);
      RunFollows(log + events);
      if !ok {
        db.stakeHistory, db.stakeDelegators, db.delegateStakers, db.orderedWithdrawals :=
          history, delegators, stakers, orders;
      }
    }
  }

  lemma RunNext(log: seq<Event>, events: seq<Event>, i: nat)
    requires i < |events| && Run(log + events[..i]).Some?
    ensures Run(log + events[..i + 1]) == Visit(Run(log + events[..i]).value, events[i])
  {
    hide Visit;
    assert Init(log + events[..i + 1]) == log + events[..i];
  }

  lemma {:induction false} FailedStaysFailed(log: seq<Event>, rest: seq<Event>)
    requires Run(log).None?
    ensures Run(log + rest).None?
  {
    hide Visit;
    if rest == [] {
      assert log + rest == log;
    } else {
      FailedStaysFailed(log, Init(rest));
      assert Init(log + rest) == log + Init(rest);
    }
  }
}
