/** What a rollback means for `stake_delegators`: no statement restores the totals. */
module DelegationRollback {
  import opened Common
  import opened StakeTables
  import opened StakeHistory
  import opened StakeRuns
  import opened StakeAccounts

  /** The event writes the total of the pair. */
  ghost predicate Saves(log: seq<Event>, e: Event, p: Address, staker: Address) {
    && p != staker
    && match e
       case StakeChanged(_, pool, s, _, _) => pool == p && s == staker
       case MovedStake(_, source, target, s, _) => s == staker && Known(log, source) && (source == p || target == p)
       case _ => false
  }

  ghost predicate Saved(log: seq<Event>, p: Address, staker: Address) {
    log != [] && (Saved(Init(log), p, staker) || Saves(Init(log), Last(log), p, staker))
  }

  lemma VisitSaves(t: Tables, log: seq<Event>, e: Event, p: Address, staker: Address)
    requires Visit(t, e).Some? && (e.MovedStake? ==> (GetLast(t.history, e.source).Some? <==> Known(log, e.source)))
    ensures (p, staker) in Visit(t, e).value.delegated <==> (p, staker) in t.delegated || Saves(log, e, p, staker)
  {
    hide RecordChange, GetLast, FindOpen, Known;
  }

  lemma {:induction false} PairsExactly(log: seq<Event>, t: Tables, p: Address, staker: Address)
    requires LogOrdered(log) && Run(log) == Some(t)
    ensures (p, staker) in t.delegated <==> Saved(log, p, staker)
  {
    hide Visit, Saves;
    if log != [] {
      var earlier, e, before := Init(log), Last(log), Run(Init(log)).value;
      assert log == earlier + [e];
      PairsExactly(earlier, before, p, staker);
      RunFollows(earlier);
      if e.MovedStake? { KnownHasLast(before.history, earlier, e.source); }
      VisitSaves(before, earlier, e, p, staker);
    }
  }

  /** Since the first `n` events the pair has delegated nothing on balance, and it is not new. */
  ghost predicate NetUnchanged(log: seq<Event>, n: nat, p: Address, staker: Address)
    requires n <= |log|
  {
    && NetDelegated(log, p, staker) == NetDelegated(log[..n], p, staker)
    && (Saved(log, p, staker) <==> Saved(log[..n], p, staker))
  }

  /** The totals are those of the first `n` events exactly when every pair is back where it was and none is new. */
  lemma TotalsComeBack(log: seq<Event>, n: nat, before: Tables, after: Tables)
    requires n <= |log| && LogOrdered(log) && LogOrdered(log[..n])
    requires Run(log[..n]) == Some(before) && Run(log) == Some(after)
    ensures after.delegated == before.delegated <==> forall p, staker :: NetUnchanged(log, n, p, staker)
  {
    hide Run, NetDelegated, Saved, PoolDelegated, LedgerOf;
    RunDelegations(log);
    RunDelegations(log[..n]);
    forall p, staker
      ensures NetUnchanged(log, n, p, staker) <==> SameTotal(after.delegated, before.delegated, (p, staker))
    {
      PairsExactly(log, after, p, staker);
      PairsExactly(log[..n], before, p, staker);
      assert Lookup(after.delegated, (p, staker)) == NetDelegated(log, p, staker);
      assert Lookup(before.delegated, (p, staker)) == NetDelegated(log[..n], p, staker);
    }
    hide NetUnchanged;
    if forall p, staker :: NetUnchanged(log, n, p, staker) {
      forall k: (Address, Address)
        ensures (k in after.delegated <==> k in before.delegated)
        ensures k in after.delegated ==> after.delegated[k] == before.delegated[k]
      {
        assert NetUnchanged(log, n, k.0, k.1);
        assert SameTotal(after.delegated, before.delegated, k);
      }
    }
  }

  ghost predicate SameTotal(a: Delegations, b: Delegations, k: (Address, Address)) {
    (k in a <==> k in b) && Lookup(a, k) == Lookup(b, k)
  }

  /**
   * With the history back at the first `n` events and the totals as they are, the pool's accounts are off by
   * what was delegated to it since: they hold as before exactly when that is nothing.
   */
  lemma AccountsAfterRollback(log: seq<Event>, n: nat, p: Address, before: Tables, after: Tables)
    requires n <= |log| && LogOrdered(log) && LogOrdered(log[..n])
    requires Run(log[..n]) == Some(before) && Run(log) == Some(after)
    ensures var l := LedgerOf(log[..n], p);
      Latest(before.history, p) == l.own + PoolDelegated(after.delegated, p) - l.claimed - l.gathered + l.correction
      <==> LedgerOf(log, p).delegated == l.delegated
  {
    hide Run, LedgerOf, PoolDelegated, Latest;
    PoolAccounts(log[..n], p);
    RunDelegations(log[..n]);
    RunDelegations(log);
  }
}
