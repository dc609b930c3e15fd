/** src/db/validatorObserver.ts over the validator statements of src/db/database-persistent.ts. */
module ValidatorObserver {
  import opened Common
  import opened Validators
  import ValidatorRestarts
  import ValidatorRuns

  /** One row got the exit block: of the node's open rows not entered there, the one entered last. */
  ghost predicate ClosesNewest(t: Table, u: Table, k: Key, s: State, n: Address, b: int) {
    && IsOpen(t, k, s, n) && k.enter != b && u == t[k := Some(b)]
    && forall l | IsOpen(t, l, s, n) && l.enter != b :: l.enter < k.enter || (l.enter == k.enter && l.round <= k.round)
  }

  class DbManager {
    var events: Table

    constructor ()
      ensures events == map[]
    {
      events := map[];
    }

    method FindValidator(node: Address, state: State) returns (found: bool)
      ensures found <==> HasOpen(events, state, node)
    {
      OpenKeysHasOpen(events, state, node);
      found := OpenKeys(events, state, node) != {};
    }

    method InsertValidator(k: Key) returns (ok: bool)
      modifies this
      ensures ok <==> k !in old(events)
      ensures events == if ok then old(events)[k := None] else old(events)
    {
      ok := k !in events;
      if ok { events := events[k := None]; }
    }

    method UpdateOrIgnoreValidator(node: Address, state: State, exitBlockNumber: int) returns (found: bool)
      modifies this
      ensures events == Close(old(events), state, node, exitBlockNumber)
      ensures found <==> exists k :: IsOpen(old(events), k, state, node) && k.enter != exitBlockNumber
      ensures found ==> exists k :: ClosesNewest(old(events), events, k, state, node, exitBlockNumber)
      ensures !found ==> events == old(events)
    {
      var existing := RowToClose(events, state, node, exitBlockNumber);
      if existing.None? { return false; }
      events := events[existing.value := Some(exitBlockNumber)];
      assert ClosesNewest(old(events), events, existing.value, state, node, exitBlockNumber);
      return true;
    }
  }

  class ValidatorObserver {
    var currentValidators: seq<Address>
    var pendingValidators: seq<Address>
    var currentKeyGenRound: int
    var currentPosdaoEpoch: int
    const dbManager: DbManager

    constructor (dbManager: DbManager)
      ensures this.dbManager == dbManager && State() == Observer([], [], 0, 0)
    {
      this.dbManager := dbManager;
      currentValidators, pendingValidators, currentKeyGenRound, currentPosdaoEpoch := [], [], 0, 0;
    }

    function State(): Observer
      reads this
    {
      Observer(currentValidators, pendingValidators, currentKeyGenRound, currentPosdaoEpoch)
    }

    /** `rows` are the open rows in the order the query returned them. */
    method Initialize(rows: seq<Key>)
      requires forall k :: k in rows <==> IsOpen(dbManager.events, k, k.state, k.node)
      requires OneOpen(dbManager.events, Current) && OneOpen(dbManager.events, Pending)
      modifies this
      ensures Matches(dbManager.events, Current, currentValidators)
      ensures Matches(dbManager.events, Pending, pendingValidators)
      ensures currentKeyGenRound == old(currentKeyGenRound) && currentPosdaoEpoch == old(currentPosdaoEpoch)
    {
      currentValidators, pendingValidators := [], [];
      var i := 0;
      while i < |rows|
        invariant 0 <= i <= |rows|
        invariant forall n ::
          n in currentValidators <==> exists j :: 0 <= j < i && rows[j].state == Current && rows[j].node == n
        invariant forall n ::
          n in pendingValidators <==> exists j :: 0 <= j < i && rows[j].state == Pending && rows[j].node == n
        invariant currentKeyGenRound == old(currentKeyGenRound) && currentPosdaoEpoch == old(currentPosdaoEpoch)
      {
        if rows[i].state == Current { currentValidators := currentValidators + [rows[i].node]; }
        if rows[i].state == Pending { pendingValidators := pendingValidators + [rows[i].node]; }
        i := i + 1;
      }
      ListedMatches(dbManager.events, rows, Current, currentValidators);
      ListedMatches(dbManager.events, rows, Pending, pendingValidators);
    }

    method ProcessRemovedValidators(removed: seq<Address>, blockNumber: int, state: State)
      modifies dbManager
      ensures dbManager.events == CloseAll(old(dbManager.events), state, removed, blockNumber)
    {
      var i := 0;
      while i < |removed|
        invariant 0 <= i <= |removed|
        invariant dbManager.events == CloseAll(old(dbManager.events), state, removed[..i], blockNumber)
      {
        assert removed[..i + 1][..i] == removed[..i];
        var found := dbManager.UpdateOrIgnoreValidator(removed[i], state, blockNumber);
        i := i + 1;
      }
      assert removed[..i] == removed;
    }

    method ProcessAddedValidators(added: seq<Address>, blockNumber: int, state: State,
                                  keyGenRound: int) returns (ok: bool)
      modifies dbManager
      ensures ok <==> OpenAll(old(dbManager.events), state, added, blockNumber, keyGenRound).Some?
      ensures ok ==> Some(dbManager.events) == OpenAll(old(dbManager.events), state, added, blockNumber, keyGenRound)
    {
      var i := 0;
      while i < |added|
        invariant 0 <= i <= |added|
        invariant OpenAll(old(dbManager.events), state, added[..i], blockNumber, keyGenRound) == Some(dbManager.events)
      {
        assert added[..i + 1][..i] == added[..i];
        OpenKeysHasOpen(dbManager.events, state, added[i]);
        var existing := dbManager.FindValidator(added[i], state);
        if !existing {
          ok := dbManager.InsertValidator(Key(state, added[i], blockNumber, keyGenRound));
          if !ok {
            OpenAllFails(old(dbManager.events), state, added, i + 1, blockNumber, keyGenRound);
            return;
          }
        }
        i := i + 1;
      }
      assert added[..i] == added;
      ok := true;
    }

    method UpdateValidators(block: Block) returns (ok: bool)
      modifies this, dbManager
      ensures ok <==> Update(old(dbManager.events), old(State()), block).Some?
      ensures ok ==> Some((dbManager.events, State())) == Update(old(dbManager.events), old(State()), block)
      ensures !ok ==> exists stage :: State() == ValidatorRestarts.Advanced(old(State()), block, stage)
      ensures !ok ==> currentPosdaoEpoch == block.epoch && currentValidators == old(currentValidators)
      ensures !ok ==>
        || (pendingValidators == block.pending && currentKeyGenRound == block.round)
        || (pendingValidators == old(pendingValidators) && currentKeyGenRound == old(currentKeyGenRound))
    {
      var keyGenRound, pending := block.round, block.pending;
      if currentKeyGenRound == keyGenRound && currentPosdaoEpoch == block.epoch && pendingValidators == pending {
        return true;
      }
      var current := block.current;
      currentPosdaoEpoch := block.epoch;
      if pendingValidators != pending || currentKeyGenRound != keyGenRound {
        ProcessRemovedValidators(pendingValidators, block.number, Pending);
        ok := ProcessAddedValidators(pending, block.number, Pending, keyGenRound);
        assert State() == ValidatorRestarts.Advanced(old(State()), block, ValidatorRestarts.EpochSet);
        if !ok { return; }
        pendingValidators := pending;
        currentKeyGenRound := keyGenRound;
      }
      if currentValidators != current || currentKeyGenRound != keyGenRound {
        ProcessRemovedValidators(currentValidators, block.number, Current);
        ok := ProcessAddedValidators(current, block.number, Current, keyGenRound);
        assert State() == ValidatorRestarts.Advanced(old(State()), block, ValidatorRestarts.PendingSet);
        if !ok { return; }
        currentValidators := current;
      }
      ok := true;
    }

    /** A committed block of a legal run: it never fails, and the whole record stays exact. */
    method FillBlock(block: Block, ghost steps: seq<ValidatorRuns.Step>, ghost log: seq<ValidatorRuns.Entry>)
      requires ValidatorRuns.Legal(steps + [ValidatorRuns.Process(block)])
      requires ValidatorRuns.Run(steps) == Some(ValidatorRuns.System(dbManager.events, State(), log))
      modifies this, dbManager
      ensures var y := ValidatorRuns.System(dbManager.events, State(), log + [ValidatorRuns.Entry(block, State())]);
        ValidatorRuns.Run(steps + [ValidatorRuns.Process(block)]) == Some(y) && ValidatorRuns.Sound(y)
    {
      ValidatorRuns.RunSound(steps + [ValidatorRuns.Process(block)]);
      assert (steps + [ValidatorRuns.Process(block)])[..|steps|] == steps;
      hide Update, ValidatorRuns.Sound, ValidatorRuns.Legal;
      var ok := UpdateValidators(block);
    }
  }

  lemma ListedMatches(t: Table, rows: seq<Key>, s: State, nodes: seq<Address>)
    requires forall k :: k in rows <==> IsOpen(t, k, k.state, k.node)
    requires OneOpen(t, s)
    requires forall n :: n in nodes <==> exists j :: 0 <= j < |rows| && rows[j].state == s && rows[j].node == n
    ensures Matches(t, s, nodes)
  {
    forall n ensures n in nodes <==> HasOpen(t, s, n) {
      if HasOpen(t, s, n) {
        var k :| IsOpen(t, k, s, n);
        assert k in rows;
      }
      if n in nodes {
        var j :| 0 <= j < |rows| && rows[j].state == s && rows[j].node == n;
        assert rows[j] in rows;
        assert IsOpen(t, rows[j], s, n);
      }
    }
  }

  lemma {:induction false} OpenAllFails(t: Table, s: State, nodes: seq<Address>, n: nat, b: int, round: int)
    requires n <= |nodes| && OpenAll(t, s, nodes[..n], b, round).None?
    ensures OpenAll(t, s, nodes, b, round).None?
    decreases |nodes|
  {
    hide Open;
    if n == |nodes| {
      assert nodes[..n] == nodes;
    } else {
      assert nodes[..|nodes| - 1][..n] == nodes[..n];
      OpenAllFails(t, s, nodes[..|nodes| - 1], n, b, round);
    }
  }
}
