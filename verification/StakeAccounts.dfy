/** Accounting across `stake_history` and `stake_delegators`, and conservation over all pools. */
module StakeAccounts {
  import opened Common
  import opened StakeTables
  import opened StakeHistory
  import opened StakeRuns

  /** The amount in the pool's last row, zero for a pool without one. */
  function Latest(h: StakeTable, p: Address): int {
    match GetLast(h, p)
    case None => 0
    case Some(k) => h[k]
  }

  lemma LatestIsSum(h: StakeTable, log: seq<Event>, p: Address)
    requires HistoryFollows(h, log) && LogOrdered(log)
    ensures Latest(h, p) == Sum(Changes(log, p))
  {
    var c := Changes(log, p);
    assert PoolRows(h, p, c);
    GetLastFinds(h, p, c);
    ChangesOrdered(log, p);
    if c != [] {
      var last := Last(c).block;
      assert Covers(StakeKey(last, last, p), p, last);
      SumUpToAll(c, last);
    }
  }

  // ----- one pool's accounts, from the event log alone -----

  /** `correction` is what wrongly signed first withdrawals added. */
  datatype Ledger = Ledger(own: int, delegated: int, claimed: int, gathered: int, correction: int) {
    function Plus(that: Ledger): Ledger {
      Ledger(own + that.own, delegated + that.delegated, claimed + that.claimed,
             gathered + that.gathered, correction + that.correction)
    }

    function Balance(): int {
      own + delegated - claimed - gathered
    }
  }

  const NOTHING := Ledger(0, 0, 0, 0, 0)

  /** A staker's stake in its own pool is own stake, in any other pool delegated stake. */
  function Staked(pool: Address, staker: Address, amount: int): Ledger {
    if pool == staker then NOTHING.(own := amount) else NOTHING.(delegated := amount)
  }

  ghost function EventLedger(log: seq<Event>, e: Event, p: Address): Ledger {
    match e
    case StakeChanged(_, pool, staker, _, withdrew) =>
      if pool != p then NOTHING
      else
        var l := Staked(pool, staker, if withdrew then -e.Wei() else e.Wei());
        if FirstWithdrawal(log, e) then l.(correction := 2 * e.Wei()) else l
    case MovedStake(_, source, target, staker, _) =>
      if !Known(log, source) then NOTHING
      else
        (if source == p then Staked(p, staker, -e.Wei()) else NOTHING).Plus(
          if target == p then Staked(p, staker, e.Wei()) else NOTHING)
    case OrderedWithdrawal(_, _, _, _, _) => NOTHING
    case ClaimedWithdrawal(_, pool, _, _) =>
      if pool == p && EffectiveClaim(log, e) then NOTHING.(claimed := e.Wei()) else NOTHING
    case GatheredAbandoned(_, pool, _) =>
      if pool == p && Known(log, p) then NOTHING.(gathered := e.Wei()) else NOTHING
  }

  ghost function LedgerOf(log: seq<Event>, p: Address): Ledger {
    if log == [] then NOTHING else LedgerOf(Init(log), p).Plus(EventLedger(Init(log), Last(log), p))
  }

  lemma {:induction false} SumAppend(c: seq<Change>, d: seq<Change>)
    ensures Sum(c + d) == Sum(c) + Sum(d)
  {
    if d == [] {
      assert c + d == c;
    } else {
      SumAppend(c, Init(d));
      assert Init(c + d) == c + Init(d);
    }
  }

  lemma SumShort(a: Change, b: Change)
    ensures Sum([]) == 0 && Sum([a]) == a.delta && Sum([a, b]) == a.delta + b.delta
  {
    assert Init([a]) == [] && Init([a, b]) == [a];
  }

  lemma MovedSum(log: seq<Event>, e: Event, p: Address)
    requires e.MovedStake?
    ensures var l := EventLedger(log, e, p); Sum(EventChanges(log, e, p)) == l.Balance() + l.correction
  {
    hide Known, Sum;
    var c, out, inn := EventChanges(log, e, p), Change(e.block, -e.Wei()), Change(e.block, e.Wei());
    SumShort(out, inn);
    SumShort(inn, inn);
    if !Known(log, e.source) || (e.source != p && e.target != p) {
      assert c == [];
    } else if e.target != p {
      assert c == [out];
    } else if e.source != p {
      assert c == [inn];
    } else {
      assert c == [out, inn];
    }
  }

  lemma EventSum(log: seq<Event>, e: Event, p: Address)
    ensures var l := EventLedger(log, e, p); Sum(EventChanges(log, e, p)) == l.Balance() + l.correction
  {
    hide Known, EffectiveClaim, Sum;
    if e.MovedStake? {
      MovedSum(log, e, p);
    } else {
      var c, inn, out := EventChanges(log, e, p), Change(e.block, e.Wei()), Change(e.block, -e.Wei());
      SumShort(inn, out);
      SumShort(out, inn);
      if e.OrderedWithdrawal? || e.pool != p {
        assert c == [];
      } else if e.StakeChanged? {
        assert c == [if e.withdrew && Known(log, p) then out else inn];
      } else {
        assert c == [] || c == [out];
      }
    }
  }

  lemma {:induction false} SumIsLedger(log: seq<Event>, p: Address)
    ensures var l := LedgerOf(log, p); Sum(Changes(log, p)) == l.Balance() + l.correction
  {
    if log != [] {
      SumIsLedger(Init(log), p);
      EventSum(Init(log), Last(log), p);
      SumAppend(Changes(Init(log), p), EventChanges(Init(log), Last(log), p));
    }
  }

  // ----- stake_delegators -----

  type Delegations = map<(Address, Address), int>

  function Lookup(m: Delegations, k: (Address, Address)): int {
    if k in m then m[k] else 0
  }

  ghost function LookupIn(m: Delegations): ((Address, Address)) -> int {
    k => Lookup(m, k)
  }

  ghost function KeysOf(m: Delegations, p: Address): set<(Address, Address)> {
    set k | k in m && k.0 == p
  }

  /** The sum of the totals of all the pool's delegators. */
  ghost function PoolDelegated(m: Delegations, p: Address): int {
    SumOver(KeysOf(m, p), LookupIn(m))
  }

  /** What the staker has delegated to the pool, from the event log alone. */
  ghost function NetDelegated(log: seq<Event>, p: Address, staker: Address): int {
    if log == [] then 0 else NetDelegated(Init(log), p, staker) + EventDelegated(Init(log), Last(log), p, staker)
  }

  ghost function EventDelegated(log: seq<Event>, e: Event, p: Address, staker: Address): int {
    if p == staker then 0
    else
      match e
      case StakeChanged(_, pool, s, _, withdrew) =>
        if pool == p && s == staker then (if withdrew then -e.Wei() else e.Wei()) else 0
      case MovedStake(_, source, target, s, _) =>
        if s == staker && Known(log, source)
        then (if target == p then e.Wei() else 0) - (if source == p then e.Wei() else 0) else 0
      case _ => 0
  }

  lemma DelegatedStep(log: seq<Event>, e: Event)
    ensures forall p, staker ::
      NetDelegated(log + [e], p, staker) == NetDelegated(log, p, staker) + EventDelegated(log, e, p, staker)
    ensures forall p ::
      LedgerOf(log + [e], p).delegated == LedgerOf(log, p).delegated + EventLedger(log, e, p).delegated
  {
    assert Init(log + [e]) == log && Last(log + [e]) == e;
  }

  ghost predicate DelegationsFollow(t: Tables, log: seq<Event>) {
    && (forall p, staker :: Lookup(t.delegated, (p, staker)) == NetDelegated(log, p, staker))
    && (forall p :: PoolDelegated(t.delegated, p) == LedgerOf(log, p).delegated)
    && (forall k | k in t.delegated :: k.1 in t.stakers)
  }

  lemma SaveDelegatedTotals(t: Tables, pool: Address, staker: Address, amount: int)
    ensures var m := SaveDelegated(t, pool, staker, amount).delegated;
      && (forall k :: Lookup(m, k) == Lookup(t.delegated, k) + if k == (pool, staker) then amount else 0)
      && (forall p :: PoolDelegated(m, p) == PoolDelegated(t.delegated, p) + if p == pool then amount else 0)
  {
    var k, m := (pool, staker), SaveDelegated(t, pool, staker, amount).delegated;
    forall p ensures PoolDelegated(m, p) == PoolDelegated(t.delegated, p) + if p == pool then amount else 0 {
      if p == pool {
        SumOverUpdate(KeysOf(t.delegated, p), LookupIn(t.delegated), LookupIn(m), k);
        assert KeysOf(m, p) == KeysOf(t.delegated, p) + {k};
      } else {
        assert KeysOf(m, p) == KeysOf(t.delegated, p);
        SumOverSame(KeysOf(m, p), LookupIn(t.delegated), LookupIn(m));
      }
    }
  }

  lemma StakeChangedDelegations(t: Tables, log: seq<Event>, e: Event)
    requires DelegationsFollow(t, log) && e.StakeChanged? && VisitStakeChanged(t, e).Some?
    ensures DelegationsFollow(VisitStakeChanged(t, e).value, log + [e])
  {
    DelegatedStep(log, e);
    hide RecordChange, GetLast, Known, PoolDelegated, Lookup, NetDelegated, LedgerOf;
    if e.pool != e.staker {
      SaveDelegatedTotals(t, e.pool, e.staker, if e.withdrew then -e.Wei() else e.Wei());
    }
  }

  /** What a move does to the delegations: out of the source, into the target, unless the staker owns it. */
  lemma MovedSaves(t: Tables, e: Event)
    requires e.MovedStake? && VisitMovedStake(t, e).Some? && GetLast(t.history, e.source).Some?
    ensures var m := VisitMovedStake(t, e).value.delegated;
      && (forall k :: Lookup(m, k) == Lookup(t.delegated, k)
            - (if k == (e.source, e.staker) && e.source != e.staker then e.Wei() else 0)
            + (if k == (e.target, e.staker) && e.target != e.staker then e.Wei() else 0))
      && (forall p :: PoolDelegated(m, p) == PoolDelegated(t.delegated, p)
            - (if p == e.source && e.source != e.staker then e.Wei() else 0)
            + (if p == e.target && e.target != e.staker then e.Wei() else 0))
  {
    hide RecordChange, GetLast, PoolDelegated;
    var t1 := t.(history := VisitMovedStake(t, e).value.history);
    var t2 := if e.source != e.staker then SaveDelegated(t1, e.source, e.staker, -e.Wei()) else t1;
    if e.source != e.staker { SaveDelegatedTotals(t1, e.source, e.staker, -e.Wei()); }
    if e.target != e.staker { SaveDelegatedTotals(t2, e.target, e.staker, e.Wei()); }
  }

  lemma MovedPair(t: Tables, log: seq<Event>, e: Event, p: Address, staker: Address)
    requires Lookup(t.delegated, (p, staker)) == NetDelegated(log, p, staker)
    requires e.MovedStake? && VisitMovedStake(t, e).Some?
    requires Known(log, e.source) && GetLast(t.history, e.source).Some?
    ensures Lookup(VisitMovedStake(t, e).value.delegated, (p, staker)) == NetDelegated(log + [e], p, staker)
  {
    hide GetLast, Known, PoolDelegated, Lookup, NetDelegated, LedgerOf, VisitMovedStake;
    var m, k := VisitMovedStake(t, e).value.delegated, (p, staker);
    assert Lookup(m, k) == Lookup(t.delegated, k) + EventDelegated(log, e, p, staker) by { MovedSaves(t, e); }
    assert NetDelegated(log + [e], p, staker) == NetDelegated(log, p, staker) + EventDelegated(log, e, p, staker) by {
      DelegatedStep(log, e);
    }
  }

  lemma MovedPool(t: Tables, log: seq<Event>, e: Event, p: Address)
    requires PoolDelegated(t.delegated, p) == LedgerOf(log, p).delegated
    requires e.MovedStake? && VisitMovedStake(t, e).Some?
    requires Known(log, e.source) && GetLast(t.history, e.source).Some?
    ensures PoolDelegated(VisitMovedStake(t, e).value.delegated, p) == LedgerOf(log + [e], p).delegated
  {
    hide GetLast, Known, PoolDelegated, Lookup, NetDelegated, LedgerOf, VisitMovedStake;
    var m := VisitMovedStake(t, e).value.delegated;
    assert PoolDelegated(m, p) == PoolDelegated(t.delegated, p) + EventLedger(log, e, p).delegated by {
      MovedSaves(t, e);
    }
    assert LedgerOf(log + [e], p).delegated == LedgerOf(log, p).delegated + EventLedger(log, e, p).delegated by {
      DelegatedStep(log, e);
    }
  }

  lemma MovedDelegations(t: Tables, log: seq<Event>, e: Event)
    requires DelegationsFollow(t, log) && e.MovedStake? && VisitMovedStake(t, e).Some?
    requires GetLast(t.history, e.source).Some? <==> Known(log, e.source)
    ensures DelegationsFollow(VisitMovedStake(t, e).value, log + [e])
  {
    MovedStakers(t, e);
    var after := VisitMovedStake(t, e).value;
    if Known(log, e.source) {
      forall p ensures PoolDelegated(after.delegated, p) == LedgerOf(log + [e], p).delegated {
        MovedPool(t, log, e, p);
      }
      forall p, staker ensures Lookup(after.delegated, (p, staker)) == NetDelegated(log + [e], p, staker) {
        MovedPair(t, log, e, p, staker);
      }
      hide *;
      assert DelegationsFollow(after, log + [e]) by { DelegationsFollowIntro(after, log + [e]); }
    } else {
      MovedUnknown(t, e);
      IdleDelegations(t, log, e);
    }
  }

  lemma DelegationsFollowIntro(t: Tables, log: seq<Event>)
    requires forall p, staker :: Lookup(t.delegated, (p, staker)) == NetDelegated(log, p, staker)
    requires forall p :: PoolDelegated(t.delegated, p) == LedgerOf(log, p).delegated
    requires forall k | k in t.delegated :: k.1 in t.stakers
    ensures DelegationsFollow(t, log)
  {
  }

  /** Events that delegate nothing change no delegation. */
  lemma IdleDelegations(t: Tables, log: seq<Event>, e: Event)
    requires DelegationsFollow(t, log) && !e.StakeChanged? && (e.MovedStake? ==> !Known(log, e.source))
    ensures DelegationsFollow(t, log + [e])
  {
    DelegatedStep(log, e);
    hide Known, EffectiveClaim, PoolDelegated, Lookup, NetDelegated, LedgerOf;
    assert forall p :: EventLedger(log, e, p).delegated == 0;
    assert forall p, staker :: EventDelegated(log, e, p, staker) == 0;
  }

  lemma MovedUnknown(t: Tables, e: Event)
    requires e.MovedStake? && GetLast(t.history, e.source).None?
    ensures VisitMovedStake(t, e) == Some(t)
  {
  }

  lemma MovedStakers(t: Tables, e: Event)
    requires e.MovedStake? && VisitMovedStake(t, e).Some?
    requires forall k | k in t.delegated :: k.1 in t.stakers
    ensures forall k | k in VisitMovedStake(t, e).value.delegated :: k.1 in VisitMovedStake(t, e).value.stakers
  {
    hide RecordChange, GetLast;
  }

  lemma {:induction false} RunDelegations(log: seq<Event>)
    requires LogOrdered(log) && Run(log).Some?
    ensures DelegationsFollow(Run(log).value, log)
  {
    if log != [] {
      var before, e := Init(log), Last(log);
      assert log == before + [e];
      RunDelegations(before);
      RunFollows(before);
      var t := Run(before).value;
      match e
      case StakeChanged(_, _, _, _, _) => StakeChangedDelegations(t, before, e);
      case MovedStake(_, source, _, _, _) =>
        KnownHasLast(t.history, before, source);
        MovedDelegations(t, before, e);
      case _ =>
        OtherDelegations(t, before, e);
    }
  }

  lemma OtherTables(t: Tables, e: Event)
    requires !e.StakeChanged? && !e.MovedStake? && Visit(t, e).Some?
    ensures Visit(t, e).value.delegated == t.delegated && Visit(t, e).value.stakers == t.stakers
  {
    hide RecordChange, GetLast, FindOpen;
  }

  lemma OtherDelegations(t: Tables, log: seq<Event>, e: Event)
    requires DelegationsFollow(t, log) && !e.StakeChanged? && !e.MovedStake? && Visit(t, e).Some?
    ensures DelegationsFollow(Visit(t, e).value, log + [e])
  {
    hide Visit, PoolDelegated, Lookup, NetDelegated, LedgerOf;
    IdleDelegations(t, log, e);
    OtherTables(t, e);
  }

  /** The pool's latest stake is what the two tables and the matched outflows say, up to the correction. */
  lemma PoolAccounts(log: seq<Event>, p: Address)
    requires LogOrdered(log) && Run(log).Some?
    ensures var t, l := Run(log).value, LedgerOf(log, p);
      Latest(t.history, p) == l.own + PoolDelegated(t.delegated, p) - l.claimed - l.gathered + l.correction
  {
    RunFollows(log);
    LatestIsSum(Run(log).value.history, log, p);
    SumIsLedger(log, p);
    RunDelegations(log);
  }

  /** The pool's first event withdraws a positive amount. */
  ghost predicate StartsWithWithdrawal(log: seq<Event>, p: Address) {
    log != [] && (
      || StartsWithWithdrawal(Init(log), p)
      || (FirstWithdrawal(Init(log), Last(log)) && Last(log).pool == p && Last(log).amount > 0))
  }

  ghost predicate NoPoolStartsWithWithdrawal(log: seq<Event>) {
    forall p :: !StartsWithWithdrawal(log, p)
  }

  lemma {:induction false} CorrectionIsStart(log: seq<Event>, p: Address)
    ensures LedgerOf(log, p).correction >= 0
    ensures LedgerOf(log, p).correction == 0 <==> !StartsWithWithdrawal(log, p)
  {
    if log != [] {
      CorrectionIsStart(Init(log), p);
    }
  }

  /** The accounts balance exactly for the pools whose first event is not a withdrawal. */
  lemma PoolBalances(log: seq<Event>, p: Address)
    requires LogOrdered(log) && Run(log).Some?
    ensures var t, l := Run(log).value, LedgerOf(log, p);
      !StartsWithWithdrawal(log, p) <==>
        Latest(t.history, p) == l.own + PoolDelegated(t.delegated, p) - l.claimed - l.gathered
  {
    PoolAccounts(log, p);
    CorrectionIsStart(log, p);
  }

  // ----- conservation over all pools -----

  ghost function Pools(h: StakeTable): set<Address> {
    set k | k in h :: k.node
  }

  ghost function LatestIn(h: StakeTable): Address -> int {
    p => Latest(h, p)
  }

  ghost function TotalStake(h: StakeTable): int {
    SumOver(Pools(h), LatestIn(h))
  }

  /** Placed minus withdrawn minus matched claims minus gathered; moves count nothing. */
  ghost function Net(log: seq<Event>): int {
    if log == [] then 0
    else
      var before, e := Init(log), Last(log);
      Net(before) +
      match e
      case StakeChanged(_, _, _, _, withdrew) => if withdrew then -e.Wei() else e.Wei()
      case ClaimedWithdrawal(_, _, _, _) => if EffectiveClaim(before, e) then -e.Wei() else 0
      case GatheredAbandoned(_, pool, _) => if Known(before, pool) then -e.Wei() else 0
      case _ => 0
  }

  ghost function Correction(log: seq<Event>): int {
    if log == [] then 0
    else Correction(Init(log)) + if FirstWithdrawal(Init(log), Last(log)) then 2 * Last(log).Wei() else 0
  }

  ghost function SumOf(log: seq<Event>): Address -> int {
    p => Sum(Changes(log, p))
  }

  lemma {:induction false} SumOfStep(log: seq<Event>, e: Event, p: Address)
    ensures SumOf(log + [e])(p) == SumOf(log)(p) + Sum(EventChanges(log, e, p))
  {
    assert Init(log + [e]) == log && Last(log + [e]) == e;
    SumAppend(Changes(log, p), EventChanges(log, e, p));
  }

  ghost function KnownPools(log: seq<Event>): set<Address> {
    if log == [] then {}
    else
      var before, e := Init(log), Last(log);
      KnownPools(before) +
      (if e.StakeChanged? then {e.pool} else if e.MovedStake? && e.source in KnownPools(before) then {e.target} else {})
  }

  lemma {:induction false} KnownPoolsAreKnown(log: seq<Event>, p: Address)
    ensures p in KnownPools(log) <==> Known(log, p)
  {
    if log != [] {
      KnownPoolsAreKnown(Init(log), p);
      if Last(log).MovedStake? { KnownPoolsAreKnown(Init(log), Last(log).source); }
    }
  }

  lemma UnknownHasNothing(log: seq<Event>, p: Address)
    requires p !in KnownPools(log)
    ensures SumOf(log)(p) == 0
  {
    KnownPoolsAreKnown(log, p);
    ChangesKnown(log, p);
  }

  lemma EventGain(log: seq<Event>, e: Event, p: Address)
    ensures SumOf(log + [e])(p) == SumOf(log)(p) + EventLedger(log, e, p).Balance() + EventLedger(log, e, p).correction
  {
    SumOfStep(log, e, p);
    EventSum(log, e, p);
  }

  /** What a move adds to one pool's stake. */
  function MoveGain(e: Event, p: Address): int
    requires e.MovedStake?
  {
    (if p == e.target then e.Wei() else 0) - (if p == e.source then e.Wei() else 0)
  }

  lemma MoveGains(log: seq<Event>, e: Event, p: Address)
    requires e.MovedStake? && Known(log, e.source)
    ensures SumOf(log + [e])(p) == SumOf(log)(p) + MoveGain(e, p)
  {
    EventGain(log, e, p);
    hide SumOf;
  }

  lemma MovedTotal(log: seq<Event>, e: Event)
    requires e.MovedStake? && Known(log, e.source)
    ensures SumOver(KnownPools(log) + {e.target}, SumOf(log + [e])) == SumOver(KnownPools(log), SumOf(log))
  {
    var pools, f, g := KnownPools(log), SumOf(log), SumOf(log + [e]);
    KnownPoolsAreKnown(log, e.source);
    if e.target !in pools { UnknownHasNothing(log, e.target); }
    hide SumOver, SumOf, Known, KnownPools;
    forall p ensures g(p) == f(p) + MoveGain(e, p) { MoveGains(log, e, p); }
    var mid := p => if p == e.source then g(p) else f(p);
    SumOverUpdate(pools, f, mid, e.source);
    assert pools + {e.source} == pools;
    SumOverUpdate(pools, mid, g, e.target);
  }

  lemma SingleTotal(log: seq<Event>, e: Event)
    requires !e.MovedStake?
    ensures var l := EventLedger(log, e, e.pool);
      SumOver(KnownPools(log) + {e.pool}, SumOf(log + [e]))
      == SumOver(KnownPools(log), SumOf(log)) + l.Balance() + l.correction
  {
    var pools, f, g := KnownPools(log), SumOf(log), SumOf(log + [e]);
    if e.pool !in pools { UnknownHasNothing(log, e.pool); }
    hide SumOver, SumOf, Known, KnownPools;
    forall p ensures p != e.pool ==> g(p) == f(p) {
      EventGain(log, e, p);
    }
    EventGain(log, e, e.pool);
    SumOverUpdate(pools, f, g, e.pool);
  }

  lemma NetStep(log: seq<Event>, e: Event)
    ensures SumOver(KnownPools(log + [e]), SumOf(log + [e])) - SumOver(KnownPools(log), SumOf(log))
      == Net(log + [e]) + Correction(log + [e]) - Net(log) - Correction(log)
  {
    assert Init(log + [e]) == log && Last(log + [e]) == e;
    assert log + [e] != [];
    if e.MovedStake? {
      KnownPoolsAreKnown(log, e.source);
      if Known(log, e.source) {
        MovedTotal(log, e);
      } else {
        IdleTotal(log, e);
        assert KnownPools(log + [e]) == KnownPools(log) + {};
        assert KnownPools(log + [e]) == KnownPools(log);
        assert Net(log + [e]) == Net(log);
        assert Correction(log + [e]) == Correction(log);
      }
    } else {
      KnownPoolsAreKnown(log, e.pool);
      if e.StakeChanged? || Known(log, e.pool) {
        SingleTotal(log, e);
        assert KnownPools(log) + {e.pool} == KnownPools(log + [e]);
      } else {
        IdleTotal(log, e);
        assert KnownPools(log) == KnownPools(log + [e]);
      }
    }
  }

  lemma {:induction false} NetIsTotal(log: seq<Event>)
    ensures SumOver(KnownPools(log), SumOf(log)) == Net(log) + Correction(log)
  {
    if log != [] {
      assert log == Init(log) + [Last(log)];
      NetIsTotal(Init(log));
      NetStep(Init(log), Last(log));
    }
  }

  lemma IdleTotal(log: seq<Event>, e: Event)
    requires if e.MovedStake? then !Known(log, e.source) else !e.StakeChanged? && !Known(log, e.pool)
    ensures SumOver(KnownPools(log), SumOf(log + [e])) == SumOver(KnownPools(log), SumOf(log))
  {
    forall p ensures SumOf(log + [e])(p) == SumOf(log)(p) { SumOfStep(log, e, p); }
    SumOverSame(KnownPools(log), SumOf(log + [e]), SumOf(log));
  }

  /** The stake of all pools together is placed minus withdrawn minus claimed minus gathered. */
  lemma Conservation(log: seq<Event>)
    requires LogOrdered(log) && Run(log).Some?
    ensures TotalStake(Run(log).value.history) == Net(log) + Correction(log)
  {
    RunFollows(log);
    var h := Run(log).value.history;
    forall p ensures p in Pools(h) <==> p in KnownPools(log) {
      KnownPoolsAreKnown(log, p);
      ChangesKnown(log, p);
      assert PoolRows(h, p, Changes(log, p));
      if Changes(log, p) != [] {
        assert StakeKey(Last(Changes(log, p)).block, Last(Changes(log, p)).block, p) in h;
      }
    }
    assert Pools(h) == KnownPools(log);
    forall p ensures LatestIn(h)(p) == SumOf(log)(p) { LatestIsSum(h, log, p); }
    SumOverSame(Pools(h), LatestIn(h), SumOf(log));
    NetIsTotal(log);
  }

  lemma {:induction false} CorrectionIsZero(log: seq<Event>)
    ensures Correction(log) >= 0
    ensures Correction(log) == 0 <==> NoPoolStartsWithWithdrawal(log)
  {
    if NoPoolStartsWithWithdrawal(log) {
      NoStartNoCorrection(log);
    } else {
      var p :| StartsWithWithdrawal(log, p);
      StartCorrects(log, p);
    }
  }

  lemma {:induction false} NoStartNoCorrection(log: seq<Event>)
    requires NoPoolStartsWithWithdrawal(log)
    ensures Correction(log) == 0
  {
    if log != [] {
      forall p ensures !StartsWithWithdrawal(Init(log), p) { assert !StartsWithWithdrawal(log, p); }
      NoStartNoCorrection(Init(log));
      if FirstWithdrawal(Init(log), Last(log)) { assert !StartsWithWithdrawal(log, Last(log).pool); }
    }
  }

  lemma {:induction false} CorrectionNonNegative(log: seq<Event>)
    ensures Correction(log) >= 0
  {
    if log != [] { CorrectionNonNegative(Init(log)); }
  }

  lemma {:induction false} StartCorrects(log: seq<Event>, p: Address)
    requires StartsWithWithdrawal(log, p)
    ensures Correction(log) > 0
  {
    CorrectionNonNegative(Init(log));
    if StartsWithWithdrawal(Init(log), p) { StartCorrects(Init(log), p); }
  }

  /** The books balance over all pools exactly when no pool's first event is a withdrawal. */
  lemma ConservationExact(log: seq<Event>)
    requires LogOrdered(log) && Run(log).Some?
    ensures TotalStake(Run(log).value.history) == Net(log) <==> NoPoolStartsWithWithdrawal(log)
  {
    Conservation(log);
    CorrectionIsZero(log);
  }

  /** A move changes no total, also within one pool and from an unknown one. */
  lemma MoveKeepsTotal(log: seq<Event>, e: Event, before: Tables, after: Tables)
    requires LogOrdered(log + [e]) && e.MovedStake?
    requires Run(log) == Some(before) && Run(log + [e]) == Some(after)
    ensures TotalStake(after.history) == TotalStake(before.history)
  {
    hide Run, TotalStake, Known, EffectiveClaim;
    assert Init(log + [e]) == log && Last(log + [e]) == e;
    assert LogOrdered(log) by { assert forall i | 0 <= i < |log| :: log[i] == (log + [e])[i]; }
    Conservation(log);
    Conservation(log + [e]);
  }

  /** Withdrawing 100 wei as a pool's first event: the row says 100, the accounts say -100. */
  lemma FirstWithdrawalUnbalances(p: Address)
    ensures var log := [StakeChanged(5, p, p, 100, true)];
      Run(log).Some? && Latest(Run(log).value.history, p) == 100 && LedgerOf(log, p).Balance() == -100
  {
    var e := StakeChanged(5, p, p, 100, true);
    var h := map[StakeKey(5, 5, p) := 100];
    assert Init([e]) == [] && LastRows(map[], p) == {};
    assert Run([e]) == Some(EMPTY.(history := h));
    assert IsLatestPoint(h, p, 5);
    assert LastRows(h, p) == {StakeKey(5, 5, p)};
    assert LedgerOf([], p) == NOTHING;
  }
}
