/** `posdao_epoch` under the block loop of src/db/runFillDb.ts, with aborted blocks and restarts. */
module Epochs {
  import opened Common

  datatype EpochRow = EpochRow(blockStart: int, blockEnd: Option<int>)

  /** By epoch number, the primary key. */
  type EpochTable = map<int, EpochRow>

  /** The epoch the chain reports at a block. */
  type Chain = int -> int

  datatype Indexer = Indexer(table: EpochTable, lastInserted: int, block: int)

  function EndEpoch(t: EpochTable, epoch: int, blockEnd: int): EpochTable {
    if epoch in t then t[epoch := t[epoch].(blockEnd := Some(blockEnd))] else t
  }

  /** The epoch statements of one block's transaction. */
  function Transition(t: EpochTable, epochAtBlockStart: int, epoch: int, b: int): Option<EpochTable> {
    if epoch <= epochAtBlockStart then Some(t)
    else
      var ended := if epochAtBlockStart >= 0 then EndEpoch(t, epochAtBlockStart, b - 1) else t;
      if epoch in ended then None else Some(ended[epoch := EpochRow(b, None)])
  }

  /** The table after the first `n` epoch statements of a block, none of which violates a key. */
  function AfterStatements(t: EpochTable, epochAtBlockStart: int, epoch: int, b: int, n: nat): EpochTable {
    if epoch <= epochAtBlockStart || n == 0 then t
    else
      var ended := if epochAtBlockStart >= 0 then EndEpoch(t, epochAtBlockStart, b - 1) else t;
      if n == 1 || epoch in ended then ended else ended[epoch := EpochRow(b, None)]
  }

  /** One statement ends the epoch before, two are the whole transition; no other row changes. */
  lemma StatementsDone(t: EpochTable, last: int, epoch: int, b: int, n: nat)
    ensures var u := AfterStatements(t, last, epoch, b, n);
      && (n == 0 || epoch <= last ==> u == t)
      && (n == 1 ==> u.Keys == t.Keys)
      && (n >= 2 && Transition(t, last, epoch, b).Some? ==> u == Transition(t, last, epoch, b).value)
      && (n >= 1 && epoch > last >= 0 && last in t ==>
            last in u && u[last] == EpochRow(t[last].blockStart, Some(b - 1)))
      && (forall e | e in t && e != last :: e in u && u[e] == t[e])
      && (forall e | e in u && e !in t :: e == epoch && u[e] == EpochRow(b, None))
  {
  }

  /**
   * What becomes of one turn of the loop. A block may fail after `statements` of its transaction, or once
   * committed, in the poll for new blocks, before the loop advances. A restart goes on after the last
   * header, or at the configured block.
   */
  datatype Turn = Commits | CommitsThenFails | Fails(statements: nat) | Restarts(startAt: Option<int>)

  /** MAX(id), or -1 for an empty table. */
  predicate IsLastEpoch(t: EpochTable, last: int) {
    if t == map[] then last == -1 else last in t && forall e | e in t :: e <= last
  }

  // ----- the table against the chain -----

  predicate Matches(r: EpochRow, b: int) {
    r.blockStart <= b && (r.blockEnd.None? || r.blockEnd.value >= b)
  }

  /** The row getEpochByBlock returns: of the matching ones, the one that starts last. */
  ghost predicate Answers(t: EpochTable, b: int, id: int) {
    && id in t && Matches(t[id], b)
    && forall e | e in t && Matches(t[e], b) :: t[e].blockStart <= t[id].blockStart
  }

  ghost predicate Monotone(chain: Chain) {
    (forall b :: chain(b) >= 0) && (forall a, b | a <= b :: chain(a) <= chain(b))
  }

  /** Every epoch of a processed block has a row. */
  ghost predicate Complete(t: EpochTable, chain: Chain, first: int, n: int) {
    forall b | first <= b < n :: chain(b) in t
  }

  /** A row covers exactly the processed blocks of its epoch. */
  ghost predicate Levels(t: EpochTable, chain: Chain, first: int, n: int) {
    forall e, b | e in t && first <= b < n :: Matches(t[e], b) <==> chain(b) == e
  }

  /** A row starts at a processed block of its epoch, and only the row of the last epoch is open. */
  ghost predicate Bounded(t: EpochTable, chain: Chain, first: int, n: int, last: int) {
    forall e | e in t ::
      && first <= t[e].blockStart < n && chain(t[e].blockStart) == e <= last
      && (if e == last then t[e].blockEnd.None? else t[e].blockEnd.Some? && t[e].blockEnd.value < n)
  }

  /** The rows are the level sets of the chain's epoch on the processed blocks first..n-1. */
  ghost predicate LevelSets(t: EpochTable, chain: Chain, first: int, n: int, last: int) {
    Complete(t, chain, first, n) && Levels(t, chain, first, n) && Bounded(t, chain, first, n, last)
  }

  ghost predicate Consistent(s: Indexer, chain: Chain, first: int) {
    && first <= s.block
    && LevelSets(s.table, chain, first, s.block, s.lastInserted)
    && s.lastInserted == (if first == s.block then -1 else chain(s.block - 1))
  }

  /** The blocks up to `n - 1` are committed, and the loop is at one of them or at the next. */
  ghost predicate Behind(s: Indexer, chain: Chain, first: int, n: int) {
    first <= s.block <= n && Consistent(s.(block := n), chain, first)
  }

  /** A block that starts an epoch closes the last row, if there is one, and opens the next. */
  lemma NewEpoch(t: EpochTable, last: int, chain: Chain, first: int, b: int)
    requires Monotone(chain) && first <= b && LevelSets(t, chain, first, b, last)
    requires last == (if first == b then -1 else chain(b - 1)) && last < chain(b)
    ensures Transition(t, last, chain(b), b).Some?
    ensures LevelSets(Transition(t, last, chain(b), b).value, chain, first, b + 1, chain(b))
  {
    if first < b {
      assert last in t;
    } else {
      assert forall e :: e !in t;
    }
  }

  /** A block in the current epoch is covered by the open row. */
  lemma SameEpoch(t: EpochTable, last: int, chain: Chain, first: int, b: int)
    requires first < b && LevelSets(t, chain, first, b, last) && last == chain(b - 1) == chain(b)
    ensures LevelSets(t, chain, first, b + 1, last)
  {
    forall e, x | e in t && first <= x < b + 1 ensures Matches(t[e], x) <==> chain(x) == e {
      if x < b { assert Matches(t[e], x) <==> chain(x) == e; }
    }
  }

  /** A committed block keeps the level sets and the loop's epoch. */
  lemma CommitKeeps(s: Indexer, chain: Chain, first: int)
    requires Monotone(chain) && Consistent(s, chain, first)
    ensures var u, e := Transition(s.table, s.lastInserted, chain(s.block), s.block), chain(s.block);
      && u.Some?
      && Consistent(Indexer(u.value, if e > s.lastInserted then e else s.lastInserted, s.block + 1), chain, first)
  {
    hide LevelSets;
    if chain(s.block) > s.lastInserted {
      NewEpoch(s.table, s.lastInserted, chain, first, s.block);
    } else {
      SameEpoch(s.table, s.lastInserted, chain, first, s.block);
    }
  }

  /** So does a block committed again, which changes no row. */
  lemma TurnKeeps(s: Indexer, chain: Chain, first: int, n: int)
    requires Monotone(chain) && Behind(s, chain, first, n)
    ensures var u, e := Transition(s.table, s.lastInserted, chain(s.block), s.block), chain(s.block);
      var last := if e > s.lastInserted then e else s.lastInserted;
      && u.Some?
      && (s.block < n ==> u.value == s.table && last == s.lastInserted)
      && Consistent(Indexer(u.value, last, if s.block < n then n else n + 1), chain, first)
  {
    hide LevelSets;
    if s.block == n {
      CommitKeeps(s, chain, first);
    } else {
      assert chain(s.block) <= chain(n - 1);
    }
  }

  /** getEpochByBlock finds the chain's epoch, and only it, at every processed block. */
  lemma LookupExact(s: Indexer, chain: Chain, first: int, b: int)
    requires Consistent(s, chain, first) && first <= b < s.block
    ensures forall id :: Answers(s.table, b, id) <==> id == chain(b)
  {
    assert Matches(s.table[chain(b)], b);
  }

  /**
   * While a block is in its transaction the query still reads the committed table: it answers with the
   * epoch of the block before, so it is right exactly when the block starts no epoch.
   */
  lemma LookupInsideTransaction(s: Indexer, chain: Chain, first: int)
    requires Consistent(s, chain, first) && first < s.block
    ensures forall id :: Answers(s.table, s.block, id) <==> id == chain(s.block - 1)
    ensures Answers(s.table, s.block, chain(s.block)) <==> chain(s.block) == chain(s.block - 1)
  {
    var last := chain(s.block - 1);
    assert Matches(s.table[last], s.block - 1);
    assert forall e | e in s.table && Matches(s.table[e], s.block) :: e == last;
  }

  lemma RestartFinds(s: Indexer, chain: Chain, first: int, last: int)
    requires Monotone(chain) && Consistent(s, chain, first) && IsLastEpoch(s.table, last)
    ensures last == s.lastInserted
  {
    if first < s.block {
      var top := chain(s.block - 1);
      assert top in s.table;
      assert forall e | e in s.table :: e == chain(s.table[e].blockStart) <= top;
    } else {
      assert s.table == map[];
    }
  }

  function Commitments(turns: seq<Turn>): nat {
    if turns == [] then 0
    else
      var last := turns[|turns| - 1];
      Commitments(turns[..|turns| - 1]) + if last.Commits? || last.CommitsThenFails? then 1 else 0
  }

  /** The block the loop is at, the first one without header, how many blocks were committed again. */
  datatype Progress = Progress(block: int, upTo: int, repeated: nat)

  function Committed(p: Progress, advance: int): Progress {
    if p.block < p.upTo then Progress(p.block + advance, p.upTo, p.repeated + 1)
    else Progress(p.block + advance, p.block + 1, p.repeated)
  }

  function After(p: Progress, turn: Turn): Progress {
    match turn
    case Commits => Committed(p, 1)
    case CommitsThenFails => Committed(p, 0)
    case Fails(_) => p
    case Restarts(startAt) => p.(block := startAt.GetOr(p.upTo))
  }

  function AfterAll(p: Progress, turns: seq<Turn>): Progress {
    if turns == [] then p else After(AfterAll(p, turns[..|turns| - 1]), turns[|turns| - 1])
  }

  /** The configured block is one the database has, or the next; any other is bootstrapped first. */
  ghost predicate Possible(p: Progress, turns: seq<Turn>, first: int) {
    forall i | 0 <= i < |turns| && turns[i].Restarts? && turns[i].startAt.Some? ::
      first <= turns[i].startAt.value <= AfterAll(p, turns[..i]).upTo
  }

  /** Every commit adds a block or repeats one. */
  lemma {:induction false} CommitsCounted(p: Progress, turns: seq<Turn>, first: int)
    requires p.block <= p.upTo && Possible(p, turns, first)
    ensures var q := AfterAll(p, turns);
      q.block <= q.upTo && Commitments(turns) == (q.upTo - p.upTo) + (q.repeated - p.repeated)
  {
    if turns != [] {
      var n := |turns| - 1;
      assert forall i | 0 <= i < n :: turns[..n][..i] == turns[..i];
      CommitsCounted(p, turns[..n], first);
    }
  }

  /** Epoch 0 runs through block 9 and epoch 1 starts at block 10: during block 10 the query answers epoch 0. */
  lemma EpochStartMisread()
    ensures var t, chain := map[0 := EpochRow(0, None)], (b: int) => if b < 10 then 0 else 1;
      && Consistent(Indexer(t, 0, 10), chain, 0)
      && Answers(t, 10, 0) && !Answers(t, 10, chain(10))
  {
  }

  class FillDb {
    var posdaoEpoch: EpochTable
    var lastInsertedPosdaoEpoch: int
    var currentBlockNumber: int
    /** One past the highest header, or the first block while there is none. */
    var headersEnd: int
    const chain: Chain

    constructor (chain: Chain, startBlock: int)
      ensures this.chain == chain && State() == Indexer(map[], -1, startBlock) && headersEnd == startBlock
    {
      this.chain := chain;
      posdaoEpoch, lastInsertedPosdaoEpoch, currentBlockNumber, headersEnd := map[], -1, startBlock, startBlock;
    }

    function State(): Indexer
      reads this
    {
      Indexer(posdaoEpoch, lastInsertedPosdaoEpoch, currentBlockNumber)
    }

    method EndStakingEpoch(epoch: int, blockEnd: int)
      modifies this`posdaoEpoch
      ensures posdaoEpoch == EndEpoch(old(posdaoEpoch), epoch, blockEnd)
    {
      if epoch in posdaoEpoch { posdaoEpoch := posdaoEpoch[epoch := posdaoEpoch[epoch].(blockEnd := Some(blockEnd))]; }
    }

    /** The block's transaction body, broken off after `budget` statements; none means it runs through. */
    method BlockBody(epochAtBlockStart: int, epoch: int, budget: Option<nat>) returns (ok: bool)
      modifies this`posdaoEpoch
      ensures ok <==> budget.None? && Transition(old(posdaoEpoch), epochAtBlockStart, epoch, currentBlockNumber).Some?
      ensures ok ==> Some(posdaoEpoch) == Transition(old(posdaoEpoch), epochAtBlockStart, epoch, currentBlockNumber)
      ensures posdaoEpoch ==
        AfterStatements(old(posdaoEpoch), epochAtBlockStart, epoch, currentBlockNumber, budget.GetOr(2))
    {
      if budget == Some(0) { return false; }
      if epoch > epochAtBlockStart {
        if epochAtBlockStart >= 0 { EndStakingEpoch(epochAtBlockStart, currentBlockNumber - 1); }
        if budget == Some(1) || epoch in posdaoEpoch { return false; }
        posdaoEpoch := posdaoEpoch[epoch := EpochRow(currentBlockNumber, None)];
      }
      return budget.None?;
    }

    /** One turn of the loop: the transaction, then the epoch, then the poll, and only then the next block. */
    method ProcessBlock(budget: Option<nat>, pollFails: bool) returns (committed: bool)
      modifies this
      ensures var last, b := old(lastInsertedPosdaoEpoch), old(currentBlockNumber);
        var u := Transition(old(posdaoEpoch), last, chain(b), b);
        && (committed <==> budget.None? && u.Some?)
        && (committed ==>
              && State() == Indexer(u.value, if chain(b) > last then chain(b) else last, if pollFails then b else b + 1)
              && headersEnd == if b < old(headersEnd) then old(headersEnd) else b + 1)
        && (!committed ==> State() == old(State()) && headersEnd == old(headersEnd))
    {
      var epochAtBlockStart := lastInsertedPosdaoEpoch;
      var posdaoEpochAfterBlock := chain(currentBlockNumber);
      var saved := posdaoEpoch;
      committed := BlockBody(epochAtBlockStart, posdaoEpochAfterBlock, budget);
      if !committed {
        posdaoEpoch := saved;
        return;
      }
      if currentBlockNumber >= headersEnd { headersEnd := currentBlockNumber + 1; }
      if posdaoEpochAfterBlock > lastInsertedPosdaoEpoch { lastInsertedPosdaoEpoch := posdaoEpochAfterBlock; }
      if pollFails { return; }
      currentBlockNumber := currentBlockNumber + 1;
    }

    method Restart(startAt: Option<int>)
      modifies this`lastInsertedPosdaoEpoch, this`currentBlockNumber
      ensures IsLastEpoch(posdaoEpoch, lastInsertedPosdaoEpoch)
      ensures currentBlockNumber == startAt.GetOr(headersEnd)
    {
      lastInsertedPosdaoEpoch := LastProcessedEpoch();
      currentBlockNumber := startAt.GetOr(headersEnd);
    }

    /**
     * Whatever turns fail, before or after their commit, and wherever the process restarts, every commit
     * adds a block or repeats one, and getEpochByBlock answers the chain's epoch at each committed block.
     */
    method Fill(turns: seq<Turn>, ghost first: int)
      requires Monotone(chain) && Behind(State(), chain, first, headersEnd)
      requires Possible(Progress(currentBlockNumber, headersEnd, 0), turns, first)
      modifies this
      ensures Behind(State(), chain, first, headersEnd)
      ensures var p := AfterAll(Progress(old(currentBlockNumber), old(headersEnd), 0), turns);
        && currentBlockNumber == p.block && headersEnd == p.upTo
        && Commitments(turns) == (headersEnd - old(headersEnd)) + p.repeated
      ensures forall b, id | first <= b < headersEnd :: Answers(posdaoEpoch, b, id) <==> id == chain(b)
    {
      hide Consistent, Monotone, Transition;
      ghost var start := Progress(currentBlockNumber, headersEnd, 0);
      CommitsCounted(start, turns, first);
      var i := 0;
      while i < |turns|
        invariant 0 <= i <= |turns|
        invariant Behind(State(), chain, first, headersEnd)
        invariant var p := AfterAll(start, turns[..i]); currentBlockNumber == p.block && headersEnd == p.upTo
      {
        assert turns[..i + 1][..i] == turns[..i];
        TurnKeeps(State(), chain, first, headersEnd);
        match turns[i] {
          case Commits => var committed := ProcessBlock(None, false);
          case CommitsThenFails => var committed := ProcessBlock(None, true);
          case Fails(statements) => var committed := ProcessBlock(Some(statements), false);
          case Restarts(startAt) =>
            ghost var before := State();
            Restart(startAt);
            RestartFinds(before.(block := headersEnd), chain, first, lastInsertedPosdaoEpoch);
        }
        i := i + 1;
      }
      assert turns[..i] == turns;
      forall b, id | first <= b < headersEnd ensures Answers(posdaoEpoch, b, id) <==> id == chain(b) {
        LookupExact(State().(block := headersEnd), chain, first, b);
      }
    }

    method LastProcessedEpoch() returns (last: int)
      ensures IsLastEpoch(posdaoEpoch, last)
    {
      if posdaoEpoch == map[] { return -1; }
      LastExists(posdaoEpoch.Keys);
      last :| last in posdaoEpoch.Keys && forall e | e in posdaoEpoch.Keys :: e <= last;
    }
  }

  lemma {:induction false} LastExists(ids: set<int>)
    requires ids != {}
    ensures exists last :: last in ids && forall e | e in ids :: e <= last
  {
    var x := Pick(ids);
    if ids == {x} {
      assert forall e | e in ids :: e <= x;
    } else {
      LastExists(ids - {x});
      var y :| y in ids - {x} && forall e | e in ids - {x} :: e <= y;
      var top := if x > y then x else y;
      assert forall e | e in ids :: e == x || e in ids - {x};
      assert top in ids && forall e | e in ids :: e <= top;
    }
  }
}
