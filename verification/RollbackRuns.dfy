/** `deleteDataFromBlock` after a run of the block indexer: all tables at once, in terms of the chain. */
module RollbackRuns {
  import opened Common
  import opened Rollback
  import BonusRestarts
  import BonusRuns
  import BonusScores
  import Epochs
  import OrderRollback
  import StakeHistory
  import StakeRollback
  import StakeTables
  import ValidatorRestarts
  import ValidatorRuns
  import Validators

  /** What may precede a commit without touching a row: aborted attempts, as far as they came, and restarts. */
  datatype Silent =
    | AbortedLists(block: Validators.Block, stage: ValidatorRestarts.Stage)
    | AbortedScores(read: seq<Address>)
    | Restarted(pools: seq<Address>, current: seq<Address>, pending: seq<Address>)

  /** What came before a block's commit, and what the block gives the three writers. */
  datatype Block = Block(
    before: seq<Silent>,
    scores: BonusScores.Block,
    validators: Validators.Block,
    events: seq<StakeTables.Event>)

  /** Block `i` of the run has number `first + i`. */
  ghost predicate Numbered(blocks: seq<Block>, first: int) {
    forall i | 0 <= i < |blocks| ::
      && blocks[i].scores.number == first + i && blocks[i].validators.number == first + i
      && forall e | e in blocks[i].events :: e.block == first + i
  }

  function EventsOf(blocks: seq<Block>): seq<StakeTables.Event> {
    if blocks == [] then [] else EventsOf(blocks[..|blocks| - 1]) + blocks[|blocks| - 1].events
  }

  function ScoreStep(a: Silent): seq<BonusRestarts.Step> {
    match a
    case AbortedLists(_, _) => []
    case AbortedScores(read) => [BonusRestarts.Abort(read)]
    case Restarted(pools, _, _) => [BonusRestarts.Restart(pools)]
  }

  function SilentScores(before: seq<Silent>): seq<BonusRestarts.Step> {
    if before == [] then []
    else SilentScores(before[..|before| - 1]) + ScoreStep(before[|before| - 1])
  }

  function ListStep(a: Silent): seq<ValidatorRestarts.Step> {
    match a
    case AbortedLists(block, stage) => [ValidatorRestarts.Abort(block, stage)]
    case AbortedScores(_) => []
    case Restarted(_, current, pending) => [ValidatorRestarts.Restart(current, pending)]
  }

  function SilentLists(before: seq<Silent>): seq<ValidatorRestarts.Step> {
    if before == [] then []
    else SilentLists(before[..|before| - 1]) + ListStep(before[|before| - 1])
  }

  function ScoresOf(blocks: seq<Block>): seq<BonusRestarts.Step> {
    if blocks == [] then []
    else
      var last := blocks[|blocks| - 1];
      ScoresOf(blocks[..|blocks| - 1]) + SilentScores(last.before)
      + [BonusRestarts.Commit(last.scores.newNodes, last.scores.pools)]
  }

  function ListsOf(blocks: seq<Block>): seq<ValidatorRestarts.Step> {
    if blocks == [] then []
    else
      var last := blocks[|blocks| - 1];
      ListsOf(blocks[..|blocks| - 1]) + SilentLists(last.before) + [ValidatorRestarts.Commit(last.validators)]
  }

  /** What the run depends on besides its blocks: the first number, the chain's scores and epochs. */
  datatype Setting = Setting(first: int, scoreAt: BonusScores.Chain, epochAt: Epochs.Chain)

  /** Nodes are inserted once, listed pools can be written, restarted observers list the open rows. */
  ghost predicate FromChain(blocks: seq<Block>, s: Setting) {
    && Numbered(blocks, s.first) && Epochs.Monotone(s.epochAt)
    && BonusRestarts.Legal(ScoresOf(blocks), s.first, s.scoreAt) && ValidatorRestarts.Lawful(ListsOf(blocks))
    && forall i | 0 <= i < |blocks| :: blocks[i].validators.epoch == s.epochAt(s.first + i)
  }

  ghost predicate NodesOf(addedBlocks: map<Address, int>, blocks: seq<Block>, first: int) {
    && (forall p | p in addedBlocks ::
          && first <= addedBlocks[p] < first + |blocks|
          && p in blocks[addedBlocks[p] - first].scores.newNodes)
    && (forall i, p | 0 <= i < |blocks| && p in blocks[i].scores.newNodes ::
          p in addedBlocks && addedBlocks[p] == first + i)
  }

  /** The database holds what the committed blocks wrote. */
  ghost predicate Indexed(db: Database, blocks: seq<Block>, s: Setting) {
    var t := StakeTables.Run(EventsOf(blocks));
    var c := BonusRestarts.Run(ScoresOf(blocks), s.first, s.scoreAt);
    var y := ValidatorRestarts.RunAll(ListsOf(blocks));
    && t.Some? && db.stakeHistory == t.value.history && db.orders == t.value.orders
    && c.Some? && db.bonusScores == c.value.scores.history
    && y.Some? && db.validators == y.value.table
    && Epochs.Consistent(IndexerOf(db, blocks, s), s.epochAt, s.first)
    && NodesOf(db.addedBlocks, blocks, s.first)
    && forall x :: x in db.headers <==> s.first <= x < s.first + |blocks|
  }

  ghost function IndexerOf(db: Database, blocks: seq<Block>, s: Setting): Epochs.Indexer {
    var next := s.first + |blocks|;
    Epochs.Indexer(db.epochs, if blocks == [] then -1 else s.epochAt(next - 1), next)
  }

  // ----- the parts of a run -----

  lemma {:induction false} EventsWithin(blocks: seq<Block>, first: int)
    requires Numbered(blocks, first)
    ensures forall e | e in EventsOf(blocks) :: first <= e.block < first + |blocks|
  {
    if blocks != [] {
      var n := |blocks| - 1;
      EventsWithin(blocks[..n], first);
      assert forall e | e in blocks[n].events :: e.block == first + n;
    }
  }

  function EventsTail(blocks: seq<Block>, n: nat): seq<StakeTables.Event>
    requires n <= |blocks|
    decreases |blocks|
  {
    if n == |blocks| then [] else EventsTail(blocks[..|blocks| - 1], n) + blocks[|blocks| - 1].events
  }

  lemma {:induction false} EventsSplit(blocks: seq<Block>, n: nat, first: int)
    requires n <= |blocks| && Numbered(blocks, first)
    ensures EventsOf(blocks) == EventsOf(blocks[..n]) + EventsTail(blocks, n)
    ensures forall e | e in EventsTail(blocks, n) :: first + n <= e.block
    decreases |blocks|
  {
    if n == |blocks| {
      assert blocks[..n] == blocks;
    } else {
      var before, last := blocks[..|blocks| - 1], blocks[|blocks| - 1];
      EventsSplit(before, n, first);
      assert before[..n] == blocks[..n];
      assert forall e | e in last.events :: e.block == first + |blocks| - 1;
    }
  }

  lemma EventsPrefix(blocks: seq<Block>, n: nat, first: int)
    requires n <= |blocks| && Numbered(blocks, first)
    ensures var log, m := EventsOf(blocks), |EventsOf(blocks[..n])|;
      && m <= |log| && EventsOf(blocks[..n]) == log[..m]
      && (forall i | 0 <= i < m :: first <= log[i].block < first + n)
      && (forall i | m <= i < |log| :: first + n <= log[i].block < first + |blocks|)
  {
    EventsSplit(blocks, n, first);
    EventsWithin(blocks, first);
    EventsWithin(blocks[..n], first);
    hide EventsOf, EventsTail, Numbered;
    var log, early, tail := EventsOf(blocks), EventsOf(blocks[..n]), EventsTail(blocks, n);
    assert log[..|early|] == early;
    forall i | 0 <= i < |early| ensures first <= log[i].block < first + n { assert log[i] == early[i]; }
    forall i | |early| <= i < |log| ensures first + n <= log[i].block < first + |blocks| {
      assert log[i] == tail[i - |early|] && log[i] in log;
    }
  }

  lemma {:induction false} EventsOrdered(blocks: seq<Block>, first: int)
    requires Numbered(blocks, first)
    ensures StakeHistory.LogOrdered(EventsOf(blocks))
  {
    if blocks != [] {
      var n := |blocks| - 1;
      EventsOrdered(blocks[..n], first);
      EventsPrefix(blocks, n, first);
      assert forall i | |EventsOf(blocks[..n])| <= i < |EventsOf(blocks)| :: EventsOf(blocks)[i] in blocks[n].events;
    }
  }

  lemma {:induction false} ScoresPrefix(blocks: seq<Block>, n: nat)
    requires n <= |blocks|
    ensures ScoresOf(blocks[..n]) <= ScoresOf(blocks)
    decreases |blocks|
  {
    if n == |blocks| {
      assert blocks[..n] == blocks;
    } else {
      ScoresPrefix(blocks[..|blocks| - 1], n);
      assert blocks[..|blocks| - 1][..n] == blocks[..n];
    }
  }

  lemma {:induction false} ScoreStepNext(steps: seq<BonusRestarts.Step>, a: Silent, s: Setting)
    requires BonusRestarts.Run(steps, s.first, s.scoreAt).Some?
    ensures var r := BonusRestarts.Run(steps + ScoreStep(a), s.first, s.scoreAt);
      r.Some? && r.value.next == BonusRestarts.Run(steps, s.first, s.scoreAt).value.next
  {
    hide BonusRestarts.Run;
    match a
    case AbortedLists(_, _) => assert steps + ScoreStep(a) == steps;
    case AbortedScores(read) => BonusRestarts.RunSilent(steps, BonusRestarts.Abort(read), s.first, s.scoreAt);
    case Restarted(pools, _, _) => BonusRestarts.RunSilent(steps, BonusRestarts.Restart(pools), s.first, s.scoreAt);
  }

  lemma {:induction false} SilentNext(steps: seq<BonusRestarts.Step>, before: seq<Silent>, s: Setting)
    requires BonusRestarts.Run(steps, s.first, s.scoreAt).Some?
    ensures var r := BonusRestarts.Run(steps + SilentScores(before), s.first, s.scoreAt);
      r.Some? && r.value.next == BonusRestarts.Run(steps, s.first, s.scoreAt).value.next
  {
    hide BonusRestarts.Run, ScoreStep;
    if before == [] {
      assert steps + SilentScores(before) == steps;
    } else {
      var n := |before| - 1;
      SilentNext(steps, before[..n], s);
      ScoreStepNext(steps + SilentScores(before[..n]), before[n], s);
      assert steps + SilentScores(before) == steps + SilentScores(before[..n]) + ScoreStep(before[n]);
    }
  }

  lemma {:induction false} ScoresNext(blocks: seq<Block>, s: Setting)
    requires BonusRestarts.Legal(ScoresOf(blocks), s.first, s.scoreAt)
    ensures var r := BonusRestarts.Run(ScoresOf(blocks), s.first, s.scoreAt);
      r.Some? && r.value.next == s.first + |blocks|
  {
    hide BonusScores.ProcessBlock, BonusRestarts.Legal;
    BonusRestarts.RunRemembers(ScoresOf(blocks), s.first, s.scoreAt);
    if blocks != [] {
      var n := |blocks| - 1;
      var before, all := ScoresOf(blocks[..n]), ScoresOf(blocks);
      BonusRestarts.LegalPrefix(all, |before|, s.first, s.scoreAt);
      assert all[..|before|] == before;
      ScoresNext(blocks[..n], s);
      SilentNext(before, blocks[n].before, s);
      assert all[..|all| - 1] == before + SilentScores(blocks[n].before);
    }
  }

  lemma {:induction false} ListStepNumber(steps: seq<ValidatorRestarts.Step>, a: Silent)
    ensures ValidatorRestarts.LastNumber(steps + ListStep(a)) == ValidatorRestarts.LastNumber(steps)
    ensures forall k | k in ListStep(a) :: !k.Commit?
  {
    var all := steps + ListStep(a);
    if a.AbortedScores? {
      assert all == steps;
    } else {
      assert all[..|all| - 1] == steps;
    }
  }

  lemma {:induction false} SilentNumber(steps: seq<ValidatorRestarts.Step>, before: seq<Silent>)
    ensures ValidatorRestarts.LastNumber(steps + SilentLists(before)) == ValidatorRestarts.LastNumber(steps)
    ensures forall k | k in SilentLists(before) :: !k.Commit?
  {
    hide ValidatorRestarts.LastNumber, ListStep;
    if before == [] {
      assert steps + SilentLists(before) == steps;
    } else {
      var n := |before| - 1;
      SilentNumber(steps, before[..n]);
      ListStepNumber(steps + SilentLists(before[..n]), before[n]);
      assert steps + SilentLists(before) == steps + SilentLists(before[..n]) + ListStep(before[n]);
    }
  }

  /** The steps of the blocks from number `n` on. */
  function ListsTail(blocks: seq<Block>, n: nat): seq<ValidatorRestarts.Step>
    requires n <= |blocks|
    decreases |blocks|
  {
    if n == |blocks| then []
    else
      var last := blocks[|blocks| - 1];
      ListsTail(blocks[..|blocks| - 1], n) + SilentLists(last.before) + [ValidatorRestarts.Commit(last.validators)]
  }

  lemma {:induction false} ListsSplit(blocks: seq<Block>, n: nat)
    requires n <= |blocks|
    ensures ListsOf(blocks) == ListsOf(blocks[..n]) + ListsTail(blocks, n)
    decreases |blocks|
  {
    hide SilentLists;
    if n == |blocks| {
      assert blocks[..n] == blocks;
    } else {
      ListsSplit(blocks[..|blocks| - 1], n);
      assert blocks[..|blocks| - 1][..n] == blocks[..n];
    }
  }

  lemma {:induction false} TailNumbers(blocks: seq<Block>, n: nat, first: int)
    requires n <= |blocks| && Numbered(blocks, first)
    ensures forall k | k in ListsTail(blocks, n) && k.Commit? :: first + n <= k.block.number
    decreases |blocks|
  {
    hide SilentLists;
    if n < |blocks| {
      TailNumbers(blocks[..|blocks| - 1], n, first);
      SilentNumber([], blocks[|blocks| - 1].before);
    }
  }

  lemma {:induction false} LastNumberBelow(blocks: seq<Block>, first: int)
    requires Numbered(blocks, first)
    ensures var last := ValidatorRestarts.LastNumber(ListsOf(blocks));
      if blocks == [] then last.None? else last == Some(first + |blocks| - 1)
  {
    hide SilentLists;
    if blocks != [] {
      var steps, n := ListsOf(blocks), |blocks| - 1;
      assert steps[|steps| - 1] == ValidatorRestarts.Commit(blocks[n].validators);
    }
  }

  // ----- the database a run leaves -----

  /** The epoch rows once the first `n` blocks are committed. */
  ghost function EpochRows(n: nat, s: Setting): Epochs.EpochTable {
    if n == 0 then map[]
    else
      var t, b := EpochRows(n - 1, s), s.first + n - 1;
      Epochs.Transition(t, EpochAfter(n - 1, s), s.epochAt(b), b).GetOr(t)
  }

  ghost function EpochAfter(n: nat, s: Setting): int {
    if n == 0 then -1 else s.epochAt(s.first + n - 1)
  }

  ghost function NodeRows(blocks: seq<Block>, first: int): map<Address, int> {
    if blocks == [] then map[]
    else AddNodes(NodeRows(blocks[..|blocks| - 1], first), blocks[|blocks| - 1].scores.newNodes, first + |blocks| - 1)
  }

  ghost function AddNodes(rows: map<Address, int>, nodes: seq<Address>, b: int): map<Address, int> {
    rows + map p | p in nodes :: b
  }

  ghost function HeaderRows(first: int, n: nat): (headers: set<int>)
    ensures forall x :: x in headers <==> first <= x < first + n
  {
    if n == 0 then {} else HeaderRows(first, n - 1) + {first + n - 1}
  }

  ghost function DatabaseOf(blocks: seq<Block>, s: Setting): Database {
    var t := StakeTables.Run(EventsOf(blocks)).GetOr(StakeTables.EMPTY);
    var c := BonusRestarts.Run(ScoresOf(blocks), s.first, s.scoreAt);
    var y := ValidatorRestarts.RunAll(ListsOf(blocks));
    Database(EpochRows(|blocks|, s), {}, {}, if c.Some? then c.value.scores.history else map[], t.history, t.orders,
             if y.Some? then y.value.table else map[], NodeRows(blocks, s.first), HeaderRows(s.first, |blocks|))
  }

  lemma {:induction false} EpochRowsConsistent(n: nat, s: Setting)
    requires Epochs.Monotone(s.epochAt)
    ensures Epochs.Consistent(Epochs.Indexer(EpochRows(n, s), EpochAfter(n, s), s.first + n), s.epochAt, s.first)
  {
    hide Epochs.Consistent, Epochs.Monotone, Epochs.Transition;
    if n == 0 {
      NoEpochs(s);
    } else {
      EpochRowsConsistent(n - 1, s);
      var i := Epochs.Indexer(EpochRows(n - 1, s), EpochAfter(n - 1, s), s.first + n - 1);
      Epochs.CommitKeeps(i, s.epochAt, s.first);
      EpochGrows(n, s);
    }
  }

  lemma NoEpochs(s: Setting)
    ensures Epochs.Consistent(Epochs.Indexer(map[], -1, s.first), s.epochAt, s.first)
  {
  }

  lemma EpochGrows(n: nat, s: Setting)
    requires n > 0 && Epochs.Monotone(s.epochAt)
    ensures EpochAfter(n - 1, s) <= s.epochAt(s.first + n - 1)
  {
    assert s.epochAt(s.first + n - 1) >= 0;
  }

  lemma {:induction false} WritesStay(steps: seq<BonusRestarts.Step>, m: nat, p: Address, s: Setting)
    requires m <= |steps| && BonusRestarts.Remember(steps[..m], p, s.first, s.scoreAt).writes != []
    ensures BonusRestarts.Remember(steps, p, s.first, s.scoreAt).writes != []
    decreases |steps|
  {
    if m == |steps| {
      assert steps[..m] == steps;
    } else {
      assert steps[..|steps| - 1][..m] == steps[..m];
      WritesStay(steps[..|steps| - 1], m, p, s);
    }
  }

  lemma {:induction false} SeenOnce(blocks: seq<Block>, i: nat, p: Address, s: Setting)
    requires i < |blocks| && p in blocks[i].scores.newNodes
    ensures BonusRestarts.Remember(ScoresOf(blocks), p, s.first, s.scoreAt).writes != []
  {
    var n, all := |blocks| - 1, ScoresOf(blocks);
    if i < n {
      SeenOnce(blocks[..n], i, p, s);
      assert all[..|ScoresOf(blocks[..n])|] == ScoresOf(blocks[..n]);
      WritesStay(all, |ScoresOf(blocks[..n])|, p, s);
    } else {
      assert all[|all| - 1] == BonusRestarts.Commit(blocks[n].scores.newNodes, blocks[n].scores.pools);
    }
  }

  lemma AddNodesOf(rows: map<Address, int>, before: seq<Block>, block: Block, first: int)
    requires NodesOf(rows, before, first) && forall p | p in block.scores.newNodes :: p !in rows
    ensures NodesOf(AddNodes(rows, block.scores.newNodes, first + |before|), before + [block], first)
  {
    var all, after := before + [block], AddNodes(rows, block.scores.newNodes, first + |before|);
    assert forall i | 0 <= i < |before| :: all[i] == before[i];
    forall p | p in after
      ensures first <= after[p] < first + |all| && p in all[after[p] - first].scores.newNodes
    {
      if p in block.scores.newNodes { assert after[p] == first + |before| && all[|before|] == block; }
    }
  }

  lemma {:induction false} NewNodesUnknown(blocks: seq<Block>, rows: map<Address, int>, s: Setting)
    requires blocks != [] && BonusRestarts.Legal(ScoresOf(blocks), s.first, s.scoreAt)
    requires NodesOf(rows, blocks[..|blocks| - 1], s.first)
    ensures forall p | p in blocks[|blocks| - 1].scores.newNodes :: p !in rows
  {
    var n, all := |blocks| - 1, ScoresOf(blocks);
    var early, silent := ScoresOf(blocks[..n]), all[..|all| - 1];
    assert all[|all| - 1] == BonusRestarts.Commit(blocks[n].scores.newNodes, blocks[n].scores.pools);
    assert BonusRestarts.Allowed(silent, all[|all| - 1], s.first, s.scoreAt);
    forall p | p in blocks[n].scores.newNodes ensures p !in rows {
      if p in rows {
        SeenOnce(blocks[..n], rows[p] - s.first, p, s);
        assert silent[..|early|] == early;
        WritesStay(silent, |early|, p, s);
      }
    }
  }

  lemma NoNodes(first: int)
    ensures NodesOf(map[], [], first)
  {
  }

  lemma {:induction false} NodeRowsOf(blocks: seq<Block>, s: Setting)
    requires BonusRestarts.Legal(ScoresOf(blocks), s.first, s.scoreAt)
    ensures NodesOf(NodeRows(blocks, s.first), blocks, s.first)
  {
    hide NodesOf, AddNodes, BonusRestarts.Legal;
    if blocks == [] {
      NoNodes(s.first);
    } else {
      var n := |blocks| - 1;
      var before, rows := blocks[..n], NodeRows(blocks[..n], s.first);
      assert before + [blocks[n]] == blocks;
      BonusRestarts.LegalPrefix(ScoresOf(blocks), |ScoresOf(before)|, s.first, s.scoreAt);
      assert ScoresOf(blocks)[..|ScoresOf(before)|] == ScoresOf(before);
      hide ScoresOf;
      NodeRowsOf(before, s);
      NewNodesUnknown(blocks, rows, s);
      AddNodesOf(rows, before, blocks[n], s.first);
    }
  }

  /** Every run whose stake events commit leaves a database; `Indexed` asks for nothing else. */
  lemma RunIsIndexed(blocks: seq<Block>, s: Setting)
    requires FromChain(blocks, s) && StakeTables.Run(EventsOf(blocks)).Some?
    ensures Indexed(DatabaseOf(blocks, s), blocks, s)
  {
    hide Numbered, Epochs.Monotone, Epochs.Consistent, NodesOf, EventsOf, ScoresOf, ListsOf;
    hide EpochRows, NodeRows, HeaderRows, StakeTables.Run, BonusRestarts.Run, ValidatorRestarts.RunAll;
    hide BonusRestarts.Legal, ValidatorRestarts.Lawful;
    EpochRowsConsistent(|blocks|, s);
    NodeRowsOf(blocks, s);
    ValidatorRestarts.RunRemembers(ListsOf(blocks));
    BonusRestarts.RunRemembers(ScoresOf(blocks), s.first, s.scoreAt);
  }

  // ----- epochs -----

  /** An epoch row starts at `b` or later exactly when a processed block from `b` on is in a later epoch. */
  lemma LateEpochOnChain(s: Epochs.Indexer, chain: Epochs.Chain, first: int, b: int)
    requires Epochs.Monotone(chain) && Epochs.Consistent(s, chain, first) && first < s.block
    ensures LateEpochs(s.table, b) == {} <==> s.block <= b || (first < b && chain(s.block - 1) == chain(b - 1))
  {
    var top := chain(s.block - 1);
    assert top in s.table;
    if s.block <= b || (first < b && top == chain(b - 1)) {
      forall e | e in s.table ensures s.table[e].blockStart < b {
        assert chain(s.table[e].blockStart) == e;
        assert s.block <= b || Epochs.Matches(s.table[top], b - 1);
      }
      assert forall e :: e !in LateEpochs(s.table, b);
    } else {
      assert top in LateEpochs(s.table, b);
    }
  }

  /** Some block from number `n` on is in a later epoch than the last one before. */
  ghost predicate EpochStarts(blocks: seq<Block>, n: nat)
    requires n <= |blocks|
  {
    n < |blocks| && (n == 0 || blocks[|blocks| - 1].validators.epoch != blocks[n - 1].validators.epoch)
  }

  lemma LateEpochOfRun(db: Database, blocks: seq<Block>, s: Setting, n: nat)
    requires n <= |blocks| && FromChain(blocks, s) && Indexed(db, blocks, s)
    ensures LateEpochs(db.epochs, s.first + n) != {} <==> EpochStarts(blocks, n)
    ensures !EpochStarts(blocks, n) ==> !EpochEndsSince(db, s.first + n)
  {
    hide BonusRestarts.Legal, ValidatorRestarts.Lawful, Numbered, NodesOf;
    if blocks == [] {
      assert forall e :: e !in db.epochs;
      assert LateEpochs(db.epochs, s.first + n) == {};
    } else {
      LateEpochOnChain(IndexerOf(db, blocks, s), s.epochAt, s.first, s.first + n);
      if !EpochStarts(blocks, n) { NoLateEnd(IndexerOf(db, blocks, s), s.epochAt, s.first, s.first + n); }
    }
  }

  /** Without a late epoch no epoch ends at or after `b` either. */
  lemma NoLateEnd(s: Epochs.Indexer, chain: Epochs.Chain, first: int, b: int)
    requires Epochs.Monotone(chain) && Epochs.Consistent(s, chain, first) && first < b <= s.block
    requires chain(s.block - 1) == chain(b - 1)
    ensures forall e | e in s.table && s.table[e].blockEnd.Some? :: s.table[e].blockEnd.value < b
  {
    forall e | e in s.table && s.table[e].blockEnd.Some? ensures s.table[e].blockEnd.value < b {
      var end := s.table[e].blockEnd.value;
      assert first <= s.table[e].blockStart && chain(s.table[e].blockStart) == e < s.lastInserted;
      assert end < s.block;
      assert b <= end ==> chain(end) == chain(b - 1);
    }
  }

  // ----- the call after a run -----

  ghost predicate NodeFirstSeen(blocks: seq<Block>, n: nat) {
    exists i :: n <= i < |blocks| && blocks[i].scores.newNodes != []
  }

  ghost predicate PoolCrosses(blocks: seq<Block>, n: nat, b: int)
    requires n <= |blocks| && |EventsOf(blocks[..n])| <= |EventsOf(blocks)|
  {
    exists p :: StakeRollback.CrossesAfter(EventsOf(blocks), |EventsOf(blocks[..n])|, p, b)
  }

  lemma NodesSince(db: Database, blocks: seq<Block>, s: Setting, n: nat)
    requires n <= |blocks| && FromChain(blocks, s) && Indexed(db, blocks, s)
    ensures NodeAddedSince(db, s.first + n) <==> NodeFirstSeen(blocks, n)
  {
    hide Epochs.Consistent, EventsOf, ScoresOf, ListsOf, Numbered, BonusRestarts.Legal, ValidatorRestarts.Lawful;
    if i :| n <= i < |blocks| && blocks[i].scores.newNodes != [] {
      var p := blocks[i].scores.newNodes[0];
      assert p in blocks[i].scores.newNodes;
      assert p in db.addedBlocks && db.addedBlocks[p] == s.first + i;
    }
  }

  lemma CrossingOfRun(db: Database, blocks: seq<Block>, s: Setting, n: nat)
    requires n <= |blocks| && FromChain(blocks, s) && Indexed(db, blocks, s)
    requires |EventsOf(blocks[..n])| <= |EventsOf(blocks)|
    ensures HistoryCrosses(db, s.first + n) <==> PoolCrosses(blocks, n, s.first + n)
  {
    hide Epochs.Consistent, NodesOf, ScoresOf, ListsOf, Numbered, StakeTables.Run, EventsOf;
    hide BonusRestarts.Legal, ValidatorRestarts.Lawful, BonusRestarts.Run, ValidatorRestarts.RunAll, HistoryCrosses;
    var b, log, t := s.first + n, EventsOf(blocks), StakeTables.Run(EventsOf(blocks)).value;
    EventsPrefix(blocks, n, s.first);
    EventsOrdered(blocks, s.first);
    StakeRollback.HistoryCrosses(log, |EventsOf(blocks[..n])|, b, t);
    forall k | k in t.history ensures k.toBlock < s.first + |blocks| {
      RowsEnd(log, t, s.first + |blocks|, k);
    }
    hide StakeRollback.CrossesAfter;
    CrossingRows(db, b, s.first, s.first + |blocks|);
  }

  lemma CrossingRows(db: Database, b: int, first: int, end: int)
    requires first <= b && forall x :: x in db.headers <==> first <= x < end
    requires forall k | k in db.stakeHistory :: k.toBlock < end
    ensures HistoryCrosses(db, b) <==> exists k :: StakeRollback.RowCrosses(db.stakeHistory, k, b)
  {
    if k :| StakeRollback.RowCrosses(db.stakeHistory, k, b) {
      assert k in db.stakeHistory && k.toBlock in db.headers;
    }
    if HistoryCrosses(db, b) {
      var k :| k in db.stakeHistory && k.fromBlock < b <= k.toBlock && k.toBlock in db.headers;
      assert StakeRollback.RowCrosses(db.stakeHistory, k, b);
    }
  }

  lemma RowsEnd(log: seq<StakeTables.Event>, t: StakeTables.Tables, end: int, k: StakeTables.StakeKey)
    requires StakeHistory.LogOrdered(log) && StakeTables.Run(log) == Some(t) && k in t.history
    requires forall i | 0 <= i < |log| :: log[i].block < end
    ensures k.toBlock < end
  {
    hide StakeTables.Run;
    StakeRollback.RunPinned(log, k.node);
    var c := StakeHistory.Changes(log, k.node);
    StakeRollback.ChangesBefore(log, k.node, end);
    assert forall i | 0 <= i < |c| :: c[i] in c;
    StakeRollback.RowsOfBefore(k.node, c, end);
  }

  /** On a run every bonus row that reaches `b` can be closed: the block before has its header. */
  lemma ClosableOnRun(db: Database, blocks: seq<Block>, s: Setting, n: nat)
    requires n <= |blocks| && FromChain(blocks, s) && Indexed(db, blocks, s)
    ensures Closable(db, s.first + n)
  {
    hide Epochs.Consistent, NodesOf, BonusRestarts.Run, BonusRestarts.Legal, ValidatorRestarts.Lawful;
    if n == 0 {
      var y := BonusRestarts.Run(ScoresOf(blocks), s.first, s.scoreAt).value;
      BonusRestarts.RowsWithin(ScoresOf(blocks), s.first, s.scoreAt, y);
    }
  }

  /**
   * After any run, aborts and restarts included, a call from the number of block `n` succeeds exactly when no
   * epoch starts and no node is first seen from there on and no pool's row crosses the number; the header
   * delete is what fails in the last two cases. An epoch start leaves the four tables as they are. Without
   * one the validator rows are those of the first `n` blocks, the bonus rows too but for the open ones, now
   * closed, and the stake history and the orders come back under exactly the conditions the events give;
   * a call that succeeds leaves just the headers of those blocks.
   */
  lemma RunRollback(blocks: seq<Block>, n: nat, s: Setting, early: Database, db: Database,
                    left: Database, outcome: Outcome)
    requires n <= |blocks| && FromChain(blocks, s) && Indexed(early, blocks[..n], s) && Indexed(db, blocks, s)
    requires Deletes(db, s.first + n, left, outcome)
    ensures var log, m, b := EventsOf(blocks), |EventsOf(blocks[..n])|, s.first + n;
      && m <= |log|
      && (outcome == Done <==> !EpochStarts(blocks, n) && !NodeFirstSeen(blocks, n) && !PoolCrosses(blocks, n, b))
      && (outcome == NoSuchColumn <==> EpochStarts(blocks, n))
      && outcome != NoClosingHeader
      && if EpochStarts(blocks, n) then
           && left.bonusScores == db.bonusScores && left.stakeHistory == db.stakeHistory
           && left.orders == db.orders && left.validators == db.validators
         else
           && left.validators == early.validators
           && left.bonusScores == BonusRuns.ClosedAt(early.bonusScores, b - 1)
           && (left.stakeHistory == early.stakeHistory <==> forall p :: StakeRollback.RestorableAfter(log, m, p))
           && (left.orders == early.orders <==> OrderRollback.NoOpenPairTouched(log, m))
           && left.headers == if outcome == Done then early.headers else db.headers
  {
    hide *;
    RunOutcome(blocks, n, s, db, left, outcome);
    StoppedKeeps(db, s.first + n, left, outcome);
    if !EpochStarts(blocks, n) {
      StakeRestored(blocks, n, s, early, db, left, outcome);
      ValidatorsRestored(blocks, n, s, early, db, left, outcome);
      BonusRestored(blocks, n, s, early, db, left, outcome);
      HeadersRestored(blocks, n, s, early, db, left, outcome);
    }
  }

  lemma HeadersIndexed(db: Database, blocks: seq<Block>, s: Setting)
    requires Indexed(db, blocks, s)
    ensures forall x :: x in db.headers <==> s.first <= x < s.first + |blocks|
  {
    hide Epochs.Consistent, NodesOf, EventsOf, ScoresOf, ListsOf, IndexerOf;
    hide StakeTables.Run, BonusRestarts.Run, ValidatorRestarts.RunAll;
  }

  lemma HeadersRestored(blocks: seq<Block>, n: nat, s: Setting, early: Database, db: Database,
                        left: Database, outcome: Outcome)
    requires n <= |blocks| && Indexed(early, blocks[..n], s) && Indexed(db, blocks, s)
    requires Deletes(db, s.first + n, left, outcome)
    ensures left.headers == if outcome == Done then early.headers else db.headers
  {
    hide *;
    StoppedKeeps(db, s.first + n, left, outcome);
    HeadersIndexed(early, blocks[..n], s);
    HeadersIndexed(db, blocks, s);
    if outcome == Done { assert forall x :: x in left.headers <==> x in early.headers; }
  }

  lemma RunOutcome(blocks: seq<Block>, n: nat, s: Setting, db: Database, left: Database, outcome: Outcome)
    requires n <= |blocks| && FromChain(blocks, s) && Indexed(db, blocks, s)
    requires Deletes(db, s.first + n, left, outcome)
    ensures |EventsOf(blocks[..n])| <= |EventsOf(blocks)|
    ensures outcome == Done <==>
      !EpochStarts(blocks, n) && !NodeFirstSeen(blocks, n) && !PoolCrosses(blocks, n, s.first + n)
    ensures outcome == NoSuchColumn <==> EpochStarts(blocks, n)
    ensures outcome != NoClosingHeader
    ensures Stops(db, s.first + n) <==> EpochStarts(blocks, n)
  {
    hide Indexed, EpochStarts, NodeFirstSeen, PoolCrosses, HistoryCrosses, NodeAddedSince, EpochEndsSince;
    hide Numbered, BonusRestarts.Legal, ValidatorRestarts.Lawful;
    hide Closable, HeadersNeeded, Cleaned, EventsOf, LateEpochs;
    EventsPrefix(blocks, n, s.first);
    LateEpochOfRun(db, blocks, s, n);
    ClosableOnRun(db, blocks, s, n);
    NodesSince(db, blocks, s, n);
    CrossingOfRun(db, blocks, s, n);
    if !EpochStarts(blocks, n) { NeededExactly(db, s.first + n); }
  }

  lemma StakeRestored(blocks: seq<Block>, n: nat, s: Setting, early: Database, db: Database,
                      left: Database, outcome: Outcome)
    requires n <= |blocks| && FromChain(blocks, s) && Indexed(early, blocks[..n], s) && Indexed(db, blocks, s)
    requires Deletes(db, s.first + n, left, outcome) && !Stops(db, s.first + n)
    requires |EventsOf(blocks[..n])| <= |EventsOf(blocks)|
    ensures var log, m := EventsOf(blocks), |EventsOf(blocks[..n])|;
      && (left.stakeHistory == early.stakeHistory <==> forall p :: StakeRollback.RestorableAfter(log, m, p))
      && (left.orders == early.orders <==> OrderRollback.NoOpenPairTouched(log, m))
  {
    hide Epochs.Consistent, NodesOf, ScoresOf, ListsOf, Numbered, StakeTables.Run;
    hide BonusRestarts.Legal, ValidatorRestarts.Lawful;
    var log, m, b := EventsOf(blocks), |EventsOf(blocks[..n])|, s.first + n;
    EventsPrefix(blocks, n, s.first);
    EventsOrdered(blocks, s.first);
    hide EventsOf, Deletes, Stops;
    var before, after := StakeTables.Run(log[..m]).value, StakeTables.Run(log).value;
    HistoryRollback(log, m, b, before, after, db, left, outcome);
    OrdersRollback(log, m, b, before, after, db, left, outcome);
  }

  lemma NumberedPrefix(blocks: seq<Block>, n: nat, first: int)
    requires n <= |blocks| && Numbered(blocks, first)
    ensures Numbered(blocks[..n], first)
  {
  }

  lemma ValidatorsRestored(blocks: seq<Block>, n: nat, s: Setting, early: Database, db: Database,
                           left: Database, outcome: Outcome)
    requires n <= |blocks| && FromChain(blocks, s) && Indexed(early, blocks[..n], s) && Indexed(db, blocks, s)
    requires Deletes(db, s.first + n, left, outcome) && !Stops(db, s.first + n)
    ensures left.validators == early.validators
  {
    hide Epochs.Consistent, NodesOf, EventsOf, ScoresOf, ListsOf, BonusRestarts.Legal, ValidatorRestarts.Lawful;
    hide Numbered, BonusRestarts.Run, ValidatorRestarts.RunAll, StakeTables.Run, ValidatorRuns.DeleteFrom, ListsTail;
    var steps, m := ListsOf(blocks), |ListsOf(blocks[..n])|;
    ListsSplit(blocks, n);
    assert steps[..m] == ListsOf(blocks[..n]) && steps[m..] == ListsTail(blocks, n);
    TailNumbers(blocks, n, s.first);
    forall i | m <= i < |steps| && steps[i].Commit? ensures s.first + n <= steps[i].block.number {
      assert steps[i] == steps[m..][i - m];
    }
    NumberedPrefix(blocks, n, s.first);
    LastNumberBelow(blocks[..n], s.first);
    var y, z := ValidatorRestarts.RunAll(steps[..m]).value, ValidatorRestarts.RunAll(steps).value;
    ValidatorRestarts.RunDeleted(steps, m, s.first + n, y, z);
  }

  lemma BonusRestored(blocks: seq<Block>, n: nat, s: Setting, early: Database, db: Database,
                      left: Database, outcome: Outcome)
    requires n <= |blocks| && FromChain(blocks, s) && Indexed(early, blocks[..n], s) && Indexed(db, blocks, s)
    requires Deletes(db, s.first + n, left, outcome) && !Stops(db, s.first + n)
    ensures left.bonusScores == BonusRuns.ClosedAt(early.bonusScores, s.first + n - 1)
  {
    hide Epochs.Consistent, NodesOf, EventsOf, ListsOf, ScoresOf, BonusRestarts.Legal, ValidatorRestarts.Lawful;
    hide Numbered, BonusRestarts.Run, ValidatorRestarts.RunAll, StakeTables.Run;
    hide BonusRuns.ClosedAt, BonusRuns.DeleteFrom;
    var steps, m := ScoresOf(blocks), |ScoresOf(blocks[..n])|;
    ScoresPrefix(blocks, n);
    assert steps[..m] == ScoresOf(blocks[..n]);
    BonusRestarts.LegalPrefix(steps, m, s.first, s.scoreAt);
    ScoresNext(blocks[..n], s);
    var y := BonusRestarts.Run(steps[..m], s.first, s.scoreAt).value;
    var z := BonusRestarts.Run(steps, s.first, s.scoreAt).value;
    BonusRestarts.RunDeleted(steps, m, s.first, s.scoreAt, y, z);
  }
}
