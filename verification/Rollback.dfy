/** `deleteDataFromBlock` of src/db/database-persistent.ts, statement by statement, over all the tables it needs. */
module Rollback {
  import opened Common
  import BonusRuns
  import BonusScores
  import Epochs
  import OrderRollback
  import StakeHistory
  import StakeRollback
  import StakeTables
  import ValidatorRuns
  import Validators

  /** `addedBlocks` is node.added_block; every column that names a block is a foreign key into `headers`. */
  datatype Database = Database(
    epochs: Epochs.EpochTable,
    epochNodes: set<(int, Address)>,
    delegateRewards: set<(int, Address, Address)>,
    bonusScores: BonusScores.BonusTable,
    stakeHistory: StakeTables.StakeTable,
    orders: seq<StakeTables.Order>,
    validators: Validators.Table,
    addedBlocks: map<Address, int>,
    headers: set<int>)

  /**
   * The statement that fails, if one does: the delete from stake_delegators by a column the table does
   * not have, the closing of bonus rows at a block without header, the delete of headers still in use.
   */
  datatype Outcome = Done | NoSuchColumn | NoClosingHeader | HeadersInUse

  function LateEpochs(t: Epochs.EpochTable, b: int): set<int> {
    set e | e in t && t[e].blockStart >= b
  }

  function WithoutEpoch(db: Database, epoch: int): Database {
    db.(epochNodes := (set r | r in db.epochNodes && r.0 != epoch),
        delegateRewards := (set r | r in db.delegateRewards && r.0 != epoch))
  }

  predicate ReachesBlock(r: BonusScores.BonusRow, b: int) {
    r.toBlock.None? || r.toBlock.value >= b
  }

  /** Closing at `b - 1` needs that header as soon as one row is to be closed. */
  predicate Closable(db: Database, b: int) {
    b - 1 in db.headers ||
    forall k | k in db.bonusScores && k.fromBlock < b :: !ReachesBlock(db.bonusScores[k], b)
  }

  /** The four tables once their statements ran. */
  function Cleaned(db: Database, b: int): Database {
    db.(bonusScores := BonusRuns.DeleteFrom(db.bonusScores, b),
        stakeHistory := StakeRollback.DeleteHistoryFrom(db.stakeHistory, b),
        orders := OrderRollback.DeleteOrdersFrom(db.orders, b),
        validators := ValidatorRuns.DeleteFrom(db.validators, b))
  }

  predicate EpochNames(t: Epochs.EpochTable, x: int) {
    exists e | e in t :: t[e].blockStart == x || t[e].blockEnd == Some(x)
  }

  predicate NodeNames(addedBlocks: map<Address, int>, x: int) {
    exists p | p in addedBlocks :: addedBlocks[p] == x
  }

  predicate BonusNames(h: BonusScores.BonusTable, x: int) {
    exists k | k in h :: k.fromBlock == x || h[k].toBlock == Some(x)
  }

  predicate HistoryNames(h: StakeTables.StakeTable, x: int) {
    exists k | k in h :: k.fromBlock == x || k.toBlock == x
  }

  predicate OrderNames(orders: seq<StakeTables.Order>, x: int) {
    exists o | o in orders :: o.claimedOn == Some(x)
  }

  predicate ValidatorNames(t: Validators.Table, x: int) {
    exists k | k in t :: k.enter == x || t[k] == Some(x)
  }

  /** Some row refers to the header. */
  predicate Named(db: Database, x: int) {
    || EpochNames(db.epochs, x) || NodeNames(db.addedBlocks, x) || BonusNames(db.bonusScores, x)
    || HistoryNames(db.stakeHistory, x) || OrderNames(db.orders, x) || ValidatorNames(db.validators, x)
  }

  predicate HeadersNeeded(db: Database, b: int) {
    exists x | x in db.headers :: x >= b && Named(db, x)
  }

  function HeadersBelow(headers: set<int>, b: int): set<int> {
    set x | x in headers && x < b
  }

  /** What a call may do. A failed statement leaves the effects of those before it: there is no transaction. */
  ghost predicate Deletes(db: Database, b: int, after: Database, outcome: Outcome) {
    if LateEpochs(db.epochs, b) != {} then
      outcome == NoSuchColumn && exists e :: e in LateEpochs(db.epochs, b) && after == WithoutEpoch(db, e)
    else if !Closable(db, b) then
      outcome == NoClosingHeader && after == db.(bonusScores := BonusRuns.WithoutLate(db.bonusScores, b))
    else if HeadersNeeded(Cleaned(db, b), b) then
      outcome == HeadersInUse && after == Cleaned(db, b)
    else
      outcome == Done && after == Cleaned(db, b).(headers := HeadersBelow(db.headers, b))
  }

  class DbManager {
    var db: Database

    constructor (db: Database)
      ensures this.db == db
    {
      this.db := db;
    }

    method DeleteDataFromBlock(blockNumber: int) returns (outcome: Outcome)
      modifies this
      ensures Deletes(old(db), blockNumber, db, outcome)
    {
      hide Closable, HeadersNeeded, HeadersBelow, LateEpochs, Closed, Reopened, WithoutEpoch;
      var epochsToDelete := LateEpochs(db.epochs, blockNumber);
      if epochsToDelete != {} {
        DeleteEpochChildren(epochsToDelete);
        return NoSuchColumn;
      }
      db := db.(bonusScores := BonusRuns.WithoutLate(db.bonusScores, blockNumber));
      LateRowsIgnored(old(db), blockNumber);
      outcome := CloseBonusRows(blockNumber);
      if outcome != Done { return; }
      db := db.(stakeHistory := StakeRollback.DeleteHistoryFrom(db.stakeHistory, blockNumber));
      db := db.(orders := OrderRollback.DeleteOrdersFrom(db.orders, blockNumber));
      db := db.(validators := Reopened(db.validators, blockNumber));
      db := db.(validators := EnteredBelow(db.validators, blockNumber));
      StatementsCompose(old(db), blockNumber);
      if HeadersNeeded(db, blockNumber) { return HeadersInUse; }
      db := db.(headers := HeadersBelow(db.headers, blockNumber));
    }

    /** The loop over the late epochs never gets past the third statement of its first turn. */
    method DeleteEpochChildren(epochsToDelete: set<int>)
      requires epochsToDelete != {}
      modifies this
      ensures exists e :: e in epochsToDelete && db == WithoutEpoch(old(db), e)
    {
      ghost var some := Pick(epochsToDelete);
      assert some in epochsToDelete;
      var epoch :| epoch in epochsToDelete;
      db := WithoutEpoch(db, epoch);
    }

    method CloseBonusRows(b: int) returns (outcome: Outcome)
      modifies this
      ensures outcome == if Closable(old(db), b) then Done else NoClosingHeader
      ensures db == if Closable(old(db), b) then old(db).(bonusScores := Closed(old(db).bonusScores, b)) else old(db)
    {
      if !Closable(db, b) { return NoClosingHeader; }
      db := db.(bonusScores := Closed(db.bonusScores, b));
      return Done;
    }
  }

  function Closed(h: BonusScores.BonusTable, b: int): BonusScores.BonusTable {
    map k | k in h ::
      if k.fromBlock < b && ReachesBlock(h[k], b) then h[k].(toBlock := Some(b - 1)) else h[k]
  }

  /** Exits at or after `b` are taken back. */
  function Reopened(t: Validators.Table, b: int): Validators.Table {
    map k | k in t :: if k.enter < b && t[k].Some? && t[k].value >= b then None else t[k]
  }

  function EnteredBelow(t: Validators.Table, b: int): Validators.Table {
    map k | k in t && k.enter < b :: t[k]
  }

  lemma LateRowsIgnored(db: Database, b: int)
    ensures Closable(db.(bonusScores := BonusRuns.WithoutLate(db.bonusScores, b)), b) <==> Closable(db, b)
  {
  }

  /** Delete then close, reopen then delete: the two statements of a table do what its function says. */
  lemma StatementsCompose(db: Database, b: int)
    ensures Closed(BonusRuns.WithoutLate(db.bonusScores, b), b) == BonusRuns.DeleteFrom(db.bonusScores, b)
    ensures EnteredBelow(Reopened(db.validators, b), b) == ValidatorRuns.DeleteFrom(db.validators, b)
  {
  }

  // ----- when the call succeeds -----

  /** A row that stays begins before `b` but ends at a header from `b` on. */
  ghost predicate HistoryCrosses(db: Database, b: int) {
    exists k | k in db.stakeHistory :: k.fromBlock < b <= k.toBlock && k.toBlock in db.headers
  }

  ghost predicate NodeAddedSince(db: Database, b: int) {
    exists p | p in db.addedBlocks :: db.addedBlocks[p] >= b && db.addedBlocks[p] in db.headers
  }

  ghost predicate EpochEndsSince(db: Database, b: int) {
    exists e | e in db.epochs :: db.epochs[e].blockEnd.Some? && db.epochs[e].blockEnd.value >= b
                              && db.epochs[e].blockEnd.value in db.headers
  }

  lemma NeededExactly(db: Database, b: int)
    requires LateEpochs(db.epochs, b) == {}
    ensures HeadersNeeded(Cleaned(db, b), b) <==>
      HistoryCrosses(db, b) || NodeAddedSince(db, b) || EpochEndsSince(db, b)
  {
    var c := Cleaned(db, b);
    forall x | x >= b
      ensures !BonusNames(c.bonusScores, x) && !ValidatorNames(c.validators, x)
    {
    }
    OrdersNameEarlier(db.orders, b);
    if HistoryCrosses(db, b) {
      var k :| k in db.stakeHistory && k.fromBlock < b <= k.toBlock && k.toBlock in db.headers;
      assert k in c.stakeHistory && HistoryNames(c.stakeHistory, k.toBlock);
      assert Named(c, k.toBlock);
    }
    if NodeAddedSince(db, b) {
      var p :| p in db.addedBlocks && db.addedBlocks[p] >= b && db.addedBlocks[p] in db.headers;
      assert Named(c, db.addedBlocks[p]);
    }
    if EpochEndsSince(db, b) {
      var e :| e in db.epochs && db.epochs[e].blockEnd.Some? && db.epochs[e].blockEnd.value >= b
            && db.epochs[e].blockEnd.value in db.headers;
      assert Named(c, db.epochs[e].blockEnd.value);
    }
    if HeadersNeeded(c, b) {
      var x :| x in c.headers && x >= b && Named(c, x);
      if EpochNames(c.epochs, x) {
        var e :| e in c.epochs && (c.epochs[e].blockStart == x || c.epochs[e].blockEnd == Some(x));
        assert e !in LateEpochs(db.epochs, b);
      }
    }
  }

  lemma {:induction false} OrdersNameEarlier(orders: seq<StakeTables.Order>, b: int)
    ensures forall o | o in OrderRollback.DeleteOrdersFrom(orders, b) && o.claimedOn.Some? :: o.claimedOn.value < b
  {
    if orders != [] { OrdersNameEarlier(orders[..|orders| - 1], b); }
  }

  // ----- what each table holds after the call -----

  /** The call ends before it reaches `stake_history`, `ordered_withdrawal` and the validator table. */
  ghost predicate Stops(db: Database, b: int) {
    LateEpochs(db.epochs, b) != {} || !Closable(db, b)
  }

  /** A call that meets a late epoch, or cannot close a bonus row, leaves the tables it did not reach unchanged. */
  lemma StoppedKeeps(db: Database, b: int, after: Database, outcome: Outcome)
    requires Deletes(db, b, after, outcome)
    ensures outcome == Done || outcome == HeadersInUse <==> !Stops(db, b)
    ensures outcome == NoSuchColumn <==> exists e | e in db.epochs :: db.epochs[e].blockStart >= b
    ensures outcome == NoClosingHeader <==> outcome != NoSuchColumn && b - 1 !in db.headers && SomeRowReaches(db, b)
    ensures outcome == NoSuchColumn ==> after.bonusScores == db.bonusScores
    ensures Stops(db, b) ==>
      after.stakeHistory == db.stakeHistory && after.orders == db.orders && after.validators == db.validators
    ensures outcome == NoClosingHeader ==> forall k ::
      && (k in after.bonusScores <==> k in db.bonusScores && k.fromBlock < b)
      && (k in after.bonusScores ==> after.bonusScores[k] == db.bonusScores[k])
    ensures outcome != Done ==> after.headers == db.headers
    ensures outcome == Done ==> forall x :: x in after.headers <==> x in db.headers && x < b
    ensures outcome != NoSuchColumn ==>
      after.epochNodes == db.epochNodes && after.delegateRewards == db.delegateRewards
    ensures outcome == NoSuchColumn ==> exists e :: LosesEpoch(db, b, after, e)
    ensures after.epochs == db.epochs && after.addedBlocks == db.addedBlocks
  {
    if e :| e in db.epochs && db.epochs[e].blockStart >= b { assert e in LateEpochs(db.epochs, b); }
    if outcome == NoSuchColumn {
      var e :| e in LateEpochs(db.epochs, b) && after == WithoutEpoch(db, e);
      assert LosesEpoch(db, b, after, e);
    }
  }

  /** A bonus row from before the block is open or ends at it or later. */
  ghost predicate SomeRowReaches(db: Database, b: int) {
    exists k | k in db.bonusScores ::
      k.fromBlock < b && (db.bonusScores[k].toBlock.None? || db.bonusScores[k].toBlock.value >= b)
  }

  /** Of the epoch nodes and delegate rewards just those of the late epoch `e` are gone. */
  ghost predicate LosesEpoch(db: Database, b: int, after: Database, e: int) {
    && e in db.epochs && db.epochs[e].blockStart >= b
    && (forall r :: r in after.epochNodes <==> r in db.epochNodes && r.0 != e)
    && (forall r :: r in after.delegateRewards <==> r in db.delegateRewards && r.0 != e)
  }

  /** The row as the UPDATE leaves it: one that reaches block `b` ends right before it. */
  ghost predicate EndsBelow(r: BonusScores.BonusRow, was: BonusScores.BonusRow, b: int) {
    && r.score == was.score
    && (was.toBlock.Some? && was.toBlock.value < b ==> r.toBlock == was.toBlock)
    && (was.toBlock.None? || was.toBlock.value >= b ==> r.toBlock == Some(b - 1))
  }

  /** Row by row, what a call that gets past the bonus rows leaves of the four tables. */
  lemma RowsLeft(db: Database, b: int, after: Database, outcome: Outcome)
    requires Deletes(db, b, after, outcome) && !Stops(db, b)
    ensures forall k :: k in after.bonusScores <==> k in db.bonusScores && k.fromBlock < b
    ensures forall k | k in after.bonusScores :: EndsBelow(after.bonusScores[k], db.bonusScores[k], b)
    ensures forall k :: k in after.stakeHistory <==> k in db.stakeHistory && k.fromBlock < b
    ensures forall k | k in after.stakeHistory :: after.stakeHistory[k] == db.stakeHistory[k]
    ensures forall o: StakeTables.Order ::
      if o.block >= b || (o.claimedOn.Some? && o.claimedOn.value >= b) then o !in after.orders
      else multiset(after.orders)[o] == multiset(db.orders)[o]
    ensures forall k :: k in after.validators <==> k in db.validators && k.enter < b
    ensures forall k | k in after.validators ::
      if db.validators[k].Some? && db.validators[k].value >= b then after.validators[k].None?
      else after.validators[k] == db.validators[k]
  {
    forall o: StakeTables.Order
      ensures if o.block >= b || (o.claimedOn.Some? && o.claimedOn.value >= b) then o !in after.orders
              else multiset(after.orders)[o] == multiset(db.orders)[o]
    {
      OrderRollback.DeletedCounts(db.orders, b, o);
    }
  }

  /** The history is back exactly when nothing was to be deleted, or the statement ran and sufficed. */
  lemma HistoryRollback(log: seq<StakeTables.Event>, n: nat, b: int, before: StakeTables.Tables,
                        after: StakeTables.Tables, db: Database, left: Database, outcome: Outcome)
    requires n <= |log| && StakeHistory.LogOrdered(log)
    requires StakeTables.Run(log[..n]) == Some(before) && StakeTables.Run(log) == Some(after)
    requires forall i | 0 <= i < n :: log[i].block < b
    requires forall i | n <= i < |log| :: b <= log[i].block
    requires db.stakeHistory == after.history && Deletes(db, b, left, outcome)
    ensures left.stakeHistory == before.history <==>
      if Stops(db, b) then StakeRollback.AllBegun(after.history, b)
      else forall p :: StakeRollback.RestorableAfter(log, n, p)
  {
    hide StakeTables.Run, StakeRollback.RestorableAfter;
    StakeRollback.HistoryDeleted(log, n, b, before, after);
    StakeRollback.HistoryUnchanged(log, n, b, before, after);
  }

  /** The orders are back exactly when nothing was to be deleted, or the statement ran and sufficed. */
  lemma OrdersRollback(log: seq<StakeTables.Event>, n: nat, b: int, before: StakeTables.Tables,
                       after: StakeTables.Tables, db: Database, left: Database, outcome: Outcome)
    requires n <= |log| && StakeHistory.LogOrdered(log) && StakeHistory.LogOrdered(log[..n])
    requires StakeTables.Run(log[..n]) == Some(before) && StakeTables.Run(log) == Some(after)
    requires forall i | 0 <= i < n :: log[i].block < b
    requires forall i | n <= i < |log| :: b <= log[i].block
    requires db.orders == after.orders && Deletes(db, b, left, outcome)
    ensures left.orders == before.orders <==>
      if Stops(db, b) then OrderRollback.AllSurvive(after.orders, b)
      else OrderRollback.NoOpenPairTouched(log, n)
  {
    hide StakeTables.Run, OrderRollback.NoOpenPairTouched;
    OrderRollback.OrdersDeleted(log, n, b, before, after);
    OrderRollback.OrdersUnchanged(log, n, b, before, after);
  }

  /** The validator rows are back exactly when the statements ran or had nothing to undo. */
  lemma ValidatorsRollback(steps: seq<ValidatorRuns.Step>, m: nat, b: int, before: ValidatorRuns.System,
                           after: ValidatorRuns.System, db: Database, left: Database, outcome: Outcome)
    requires m <= |steps| && ValidatorRuns.Legal(steps)
    requires ValidatorRuns.Run(steps[..m]) == Some(before) && ValidatorRuns.Run(steps) == Some(after)
    requires forall i | 0 <= i < |before.log| :: before.log[i].block.number < b
    requires forall i | m <= i < |steps| && steps[i].Process? :: b <= steps[i].block.number
    requires db.validators == after.table && Deletes(db, b, left, outcome)
    ensures left.validators == before.table <==> !Stops(db, b) || ValidatorRuns.AllPast(after.table, b)
  {
    hide ValidatorRuns.Run, ValidatorRuns.Legal;
    ValidatorRuns.ValidatorsDeleted(steps, m, b, before, after);
    ValidatorRuns.ValidatorsUnchanged(steps, m, b, before, after);
  }

  /** The bonus rows are back only when none of them was open or, where the call stopped, nothing was written since. */
  lemma BonusRollbackExact(cache: map<Address, int>, blocks: seq<BonusScores.Block>, n: nat, chain: BonusScores.Chain,
                           b: int, before: BonusScores.Scores, after: BonusScores.Scores,
                           db: Database, left: Database, outcome: Outcome)
    requires n <= |blocks| && BonusRuns.WellFormed(blocks)
    requires forall i | 0 <= i < n :: blocks[i].number < b
    requires forall i | n <= i < |blocks| :: b <= blocks[i].number
    requires BonusScores.Run(cache, blocks[..n], chain) == Some(before)
    requires BonusScores.Run(cache, blocks, chain) == Some(after)
    requires db.bonusScores == after.history && Deletes(db, b, left, outcome)
    ensures left.bonusScores == before.history <==>
      if LateEpochs(db.epochs, b) != {} then BonusRuns.AllBegun(after.history, b)
      else if !Closable(db, b) then BonusRuns.NoneClosedSince(after.history, b)
      else BonusRuns.NothingObserved(blocks[..n])
  {
    hide BonusScores.Run, BonusRuns.WellFormed, BonusRuns.NothingObserved;
    BonusRuns.BonusDeletedExact(cache, blocks, n, chain, b, before, after);
    BonusRuns.BonusUnchanged(cache, blocks, n, chain, b, before, after);
    BonusRuns.LateRowsDeleted(cache, blocks, n, chain, b, before, after);
  }

  ghost predicate NothingCovers(h: BonusScores.BonusTable, b: int) {
    forall k, p, x | b <= x :: !BonusScores.Covers(h, k, p, x)
  }

  predicate NoneReaches(h: BonusScores.BonusTable, b: int) {
    forall k | k in h :: !ReachesBlock(h[k], b) && k.fromBlock < b
  }

  /**
   * However the call ends, lookups below the block are those of before it. Nothing covers the block or
   * a later one exactly when the call got past the bonus rows or none of them reached that far.
   */
  lemma BonusRollback(cache: map<Address, int>, blocks: seq<BonusScores.Block>, n: nat, chain: BonusScores.Chain,
                      b: int, before: BonusScores.Scores, after: BonusScores.Scores,
                      db: Database, left: Database, outcome: Outcome)
    requires n <= |blocks| && BonusRuns.WellFormed(blocks)
    requires forall i | 0 <= i < n :: blocks[i].number < b
    requires forall i | n <= i < |blocks| :: b <= blocks[i].number
    requires BonusScores.Run(cache, blocks[..n], chain) == Some(before)
    requires BonusScores.Run(cache, blocks, chain) == Some(after)
    requires db.bonusScores == after.history && Deletes(db, b, left, outcome)
    ensures forall k, p, x | x < b ::
      BonusScores.Covers(left.bonusScores, k, p, x) <==> BonusScores.Covers(before.history, k, p, x)
    ensures NothingCovers(left.bonusScores, b) <==> !Stops(db, b) || NoneReaches(after.history, b)
  {
    hide BonusScores.Run, BonusRuns.WellFormed;
    BonusRuns.BonusDeleted(cache, blocks, n, chain, b, before, after);
    BonusRuns.LateRowsDeleted(cache, blocks, n, chain, b, before, after);
    BonusRuns.RowsNonempty(cache, blocks, chain);
    RowsReach(db, b, left, outcome);
  }

  lemma RowsReach(db: Database, b: int, left: Database, outcome: Outcome)
    requires Deletes(db, b, left, outcome)
    requires forall k | k in db.bonusScores && db.bonusScores[k].toBlock.Some? ::
      k.fromBlock <= db.bonusScores[k].toBlock.value
    ensures NothingCovers(left.bonusScores, b) <==> !Stops(db, b) || NoneReaches(db.bonusScores, b)
  {
    var h := left.bonusScores;
    if Stops(db, b) && !NoneReaches(db.bonusScores, b) {
      var k :| k in h && (ReachesBlock(h[k], b) || k.fromBlock >= b);
      var x := if k.fromBlock >= b then k.fromBlock else b;
      assert BonusScores.Covers(h, k, k.node, x);
    }
  }

  // ----- inputs that fail -----

  /** Blocks 0 to 10 with the given epochs and stake rows; the pool was added at block 0. */
  function Sample(p: Address, epochs: Epochs.EpochTable, t: StakeTables.Tables): Database {
    Database(epochs, {}, {}, map[], t.history, t.orders, map[], map[p := 0], {0, 1, 2, 3, 4, 5, 6, 7, 8, 9, 10})
  }

  const ONE_EPOCH: Epochs.EpochTable := map[1 := Epochs.EpochRow(0, None)]
  const TWO_EPOCHS: Epochs.EpochTable := map[1 := Epochs.EpochRow(0, Some(6)), 2 := Epochs.EpochRow(7, None)]

  lemma TwoPlacements(p: Address, b: int)
    requires b > 5
    ensures var log := [StakeTables.StakeChanged(5, p, p, 100, false), StakeTables.StakeChanged(b, p, p, 50, false)];
      && StakeTables.Run(log[..1]) == Some(StakeTables.EMPTY.(history := map[StakeTables.StakeKey(5, 5, p) := 100]))
      && StakeTables.Run(log) == Some(StakeTables.EMPTY.(history :=
           map[StakeTables.StakeKey(5, b - 1, p) := 100, StakeTables.StakeKey(b, b, p) := 150]))
      && StakeTables.GetLast(map[StakeTables.StakeKey(5, 5, p) := 100], p).Some?
  {
    var first, second := StakeTables.StakeChanged(5, p, p, 100, false), StakeTables.StakeChanged(b, p, p, 50, false);
    var log, h := [first, second], map[StakeTables.StakeKey(5, 5, p) := 100];
    assert log[..1] == [first] && [first][..0] == [];
    assert StakeTables.LastRows(map[], p) == {};
    assert StakeTables.Run([first]) == Some(StakeTables.EMPTY.(history := h));
    assert StakeTables.IsLatestPoint(h, p, 5);
    assert StakeTables.LastRows(h, p) == {StakeTables.StakeKey(5, 5, p)};
    var g := map[StakeTables.StakeKey(5, b - 1, p) := 100, StakeTables.StakeKey(b, b, p) := 150];
    assert StakeTables.RecordChange(h, p, b, 50) == Some(g);
  }

  /** One kept row that ends at a header from `b` on makes the header delete fail. */
  lemma CrossingFails(db: Database, b: int, k: StakeTables.StakeKey, left: Database, outcome: Outcome)
    requires Deletes(db, b, left, outcome) && LateEpochs(db.epochs, b) == {} && Closable(db, b)
    requires k in db.stakeHistory && k.fromBlock < b <= k.toBlock && k.toBlock in db.headers
    ensures outcome == HeadersInUse && left.stakeHistory == StakeRollback.DeleteHistoryFrom(db.stakeHistory, b)
  {
    NeededExactly(db, b);
    hide HeadersNeeded;
  }

  /**
   * Stake placed at block 5 and raised at block 10. Deleting from block 8 leaves the pool without a last
   * row, and the row 5..9 that it keeps makes the header delete fail.
   */
  lemma RollbackLosesLastRow(p: Address, left: Database, outcome: Outcome)
    requires var log := [StakeTables.StakeChanged(5, p, p, 100, false), StakeTables.StakeChanged(10, p, p, 50, false)];
      StakeTables.Run(log).Some? && Deletes(Sample(p, ONE_EPOCH, StakeTables.Run(log).value), 8, left, outcome)
    ensures outcome == HeadersInUse && StakeTables.GetLast(left.stakeHistory, p).None?
    ensures var before := StakeTables.Run([StakeTables.StakeChanged(5, p, p, 100, false)]);
      before.Some? && StakeTables.GetLast(before.value.history, p).Some?
  {
    TwoPlacements(p, 10);
    var log := [StakeTables.StakeChanged(5, p, p, 100, false), StakeTables.StakeChanged(10, p, p, 50, false)];
    assert log[..1] == [log[0]];
    hide StakeTables.Run;
    var db := Sample(p, ONE_EPOCH, StakeTables.Run(log).value);
    assert LateEpochs(db.epochs, 8) == {};
    var kept := StakeTables.StakeKey(5, 9, p);
    CrossingFails(db, 8, kept, left, outcome);
    hide Deletes;
    assert StakeRollback.DeleteHistoryFrom(db.stakeHistory, 8) == map[kept := 100];
    assert StakeTables.LastRows(map[kept := 100], p) == {};
  }

  /**
   * Stake placed at block 5 and raised at block 6, an epoch starting at block 7. Deleting from block 6
   * would restore the history, were the statement reached: the late epoch stops the call and row 6 stays.
   */
  lemma LateEpochKeepsRows(p: Address, left: Database, outcome: Outcome)
    requires var log := [StakeTables.StakeChanged(5, p, p, 100, false), StakeTables.StakeChanged(6, p, p, 50, false)];
      && StakeTables.Run(log).Some?
      && Deletes(Sample(p, TWO_EPOCHS, StakeTables.Run(log).value), 6, left, outcome)
    ensures outcome == NoSuchColumn && StakeTables.StakeKey(6, 6, p) in left.stakeHistory
    ensures var log := [StakeTables.StakeChanged(5, p, p, 100, false), StakeTables.StakeChanged(6, p, p, 50, false)];
      StakeRollback.DeleteHistoryFrom(StakeTables.Run(log).value.history, 6) == StakeTables.Run(log[..1]).value.history
  {
    TwoPlacements(p, 6);
    var log := [StakeTables.StakeChanged(5, p, p, 100, false), StakeTables.StakeChanged(6, p, p, 50, false)];
    hide StakeTables.Run;
    var db := Sample(p, TWO_EPOCHS, StakeTables.Run(log).value);
    assert 2 in LateEpochs(db.epochs, 6);
  }
}
