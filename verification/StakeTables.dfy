/** The stake tables of src/db/database-persistent.ts, written by src/eventsVisitor.ts. */
module StakeTables {
  import opened Common

  /** Primary key of `stake_history`; the one other column is the amount, in wei. */
  datatype StakeKey = StakeKey(fromBlock: int, toBlock: int, node: Address)

  type StakeTable = map<StakeKey, int>

  /** A row of `ordered_withdrawal`; its serial id is its position. */
  datatype Order = Order(pool: Address, staker: Address, epoch: int, block: int, amount: int, claimedOn: Option<int>)

  datatype Tables = Tables(
    history: StakeTable,
    delegated: map<(Address, Address), int>,
    stakers: set<Address>,
    orders: seq<Order>)

  const EMPTY := Tables(map[], map[], {}, [])

  // ----- stake_history -----

  /** `t` is MAX(to_block) over the node's rows with from_block = to_block. */
  predicate IsLatestPoint(h: StakeTable, node: Address, t: int) {
    && StakeKey(t, t, node) in h
    && forall k | k in h && k.node == node && k.fromBlock == k.toBlock :: k.toBlock <= t
  }

  function LastRows(h: StakeTable, node: Address): set<StakeKey> {
    set k | k in h && k.node == node && IsLatestPoint(h, node, k.toBlock)
  }

  lemma SingletonIsUnique<T>(s: set<T>, x: T, y: T)
    requires |s| == 1 && x in s && y in s
    ensures x == y
  {
    assert |s - {x}| == 0;
  }

  /** The only row the query finds; nothing when it finds none or several. */
  function GetLast(h: StakeTable, node: Address): (r: Option<StakeKey>)
    ensures r.Some? ==> r.value in h && r.value.node == node
  {
    var rows := LastRows(h, node);
    if |rows| == 1 then
      assert forall x, y | x in rows && y in rows :: x == y by {
        forall x, y | x in rows && y in rows ensures x == y { SingletonIsUnique(rows, x, y); }
      }
      assert exists k :: k in rows by { assert rows != {}; }
      var k :| k in rows;
      Some(k)
    else
      None
  }

  function UpdateToBlock(h: StakeTable, k: StakeKey, toBlock: int): Option<StakeTable> {
    var moved := k.(toBlock := toBlock);
    if k !in h || moved == k then Some(h)
    else if moved in h then None
    else Some((h - {k})[moved := h[k]])
  }

  function InsertHistory(h: StakeTable, k: StakeKey, amount: int): Option<StakeTable> {
    if k in h then None else Some(h[k := amount])
  }

  /** What every visit does to one pool: close its last row, if it has one, and open one at `block`. */
  function RecordChange(h: StakeTable, node: Address, block: int, delta: int): Option<StakeTable> {
    var point := StakeKey(block, block, node);
    match GetLast(h, node)
    case None => InsertHistory(h, point, delta)
    case Some(k) =>
      var closed :- UpdateToBlock(h, k, block - 1);
      InsertHistory(closed, point, h[k] + delta)
  }

  // ----- stake_delegators, ordered_withdrawal -----

  function SaveDelegated(t: Tables, pool: Address, delegator: Address, amount: int): Tables {
    var k := (pool, delegator);
    var before := if k in t.delegated then t.delegated[k] else 0;
    t.(delegated := t.delegated[k := before + amount], stakers := t.stakers + {delegator})
  }

  predicate IsOpenFor(o: Order, pool: Address, staker: Address) {
    o.pool == pool && o.staker == staker && o.claimedOn.None?
  }

  function FindOpen(orders: seq<Order>, pool: Address, staker: Address): (r: Option<nat>)
    ensures r.Some? ==> r.value < |orders| && IsOpenFor(orders[r.value], pool, staker)
    ensures r.None? ==> forall o | o in orders :: !IsOpenFor(o, pool, staker)
  {
    if orders == [] then None
    else
      var n := |orders| - 1;
      if IsOpenFor(orders[n], pool, staker) then Some(n)
      else
        assert orders == orders[..n] + [orders[n]];
        FindOpen(orders[..n], pool, staker)
  }

  // ----- events -----

  datatype Event =
    | StakeChanged(block: int, pool: Address, staker: Address, amount: nat, withdrew: bool)
    | MovedStake(block: int, source: Address, target: Address, staker: Address, amount: nat)
    | OrderedWithdrawal(block: int, pool: Address, staker: Address, epoch: int, amount: nat)
    | ClaimedWithdrawal(block: int, pool: Address, staker: Address, amount: nat)
    | GatheredAbandoned(block: int, pool: Address, amount: nat)
  {
    function Wei(): int { amount }
  }

  /** The tables after one event; nothing when a statement violates a key and the block aborts. */
  function Visit(t: Tables, e: Event): Option<Tables> {
    match e
    case StakeChanged(b, pool, staker, amount, withdrew) => VisitStakeChanged(t, e)
    case MovedStake(b, source, target, staker, amount) => VisitMovedStake(t, e)
    case OrderedWithdrawal(b, pool, staker, epoch, amount) => Some(VisitOrdered(t, e))
    case ClaimedWithdrawal(b, pool, staker, amount) => VisitClaimed(t, e)
    case GatheredAbandoned(b, pool, amount) => VisitGathered(t, e)
  }

  function VisitStakeChanged(t: Tables, e: Event): Option<Tables>
    requires e.StakeChanged?
  {
    var change := if e.withdrew then -e.Wei() else e.Wei();
    var t1 := if e.pool != e.staker then SaveDelegated(t, e.pool, e.staker, change) else t;
    // A pool without a last row receives the plain amount, whatever the event's direction.
    var delta := if GetLast(t.history, e.pool).None? then e.Wei() else change;
    var h :- RecordChange(t1.history, e.pool, e.block, delta);
    Some(t1.(history := h))
  }

  function VisitMovedStake(t: Tables, e: Event): Option<Tables>
    requires e.MovedStake?
  {
    if GetLast(t.history, e.source).None? then Some(t)
    else
      var h1 :- RecordChange(t.history, e.source, e.block, -e.Wei());
      var h2 :- RecordChange(h1, e.target, e.block, e.amount);
      var t1 := t.(history := h2);
      var t2 := if e.source != e.staker then SaveDelegated(t1, e.source, e.staker, -e.Wei()) else t1;
      Some(if e.target != e.staker then SaveDelegated(t2, e.target, e.staker, e.amount) else t2)
  }

  function VisitOrdered(t: Tables, e: Event): Tables
    requires e.OrderedWithdrawal?
  {
    match FindOpen(t.orders, e.pool, e.staker)
    case None => t.(orders := t.orders + [Order(e.pool, e.staker, e.epoch, e.block, e.amount, None)])
    case Some(i) =>
      var o := t.orders[i];
      t.(orders := t.orders[i := o.(epoch := e.epoch, block := e.block, amount := o.amount + e.amount)])
  }

  function VisitClaimed(t: Tables, e: Event): Option<Tables>
    requires e.ClaimedWithdrawal?
  {
    var open := FindOpen(t.orders, e.pool, e.staker);
    if open.None? || GetLast(t.history, e.pool).None? then Some(t)
    else
      var o := t.orders[open.value];
      var h :- RecordChange(t.history, e.pool, e.block, -e.Wei());
      Some(t.(history := h, orders := t.orders[open.value := o.(claimedOn := Some(e.block))]))
  }

  function VisitGathered(t: Tables, e: Event): Option<Tables>
    requires e.GatheredAbandoned?
  {
    if GetLast(t.history, e.pool).None? then Some(t)
    else
      var h :- RecordChange(t.history, e.pool, e.block, -e.Wei());
      Some(t.(history := h))
  }

  /** The tables after a run of events from empty tables. */
  function Run(log: seq<Event>): Option<Tables> {
    if log == [] then Some(EMPTY)
    else
      var t :- Run(log[..|log| - 1]);
      Visit(t, log[|log| - 1])
  }
}
