/** Retries of a block that sees new nodes: `knownNodes` of src/db/runFillDb.ts against the node table. */
module NodeRetries {
  import opened Common
  import opened StakeTables
  import opened StakeHistory
  import opened StakeRuns

  /** getPoolsSet of src/eventProcessor.ts: the pools for which a block inserts nodes it does not know. */
  function PoolsOf(events: seq<Event>): set<Address> {
    if events == [] then {}
    else
      var e := Last(events);
      PoolsOf(Init(events)) + if e.MovedStake? then {e.source, e.target} else {e.pool}
  }

  predicate Names(e: Event, p: Address) {
    if e.MovedStake? then p == e.source || p == e.target else p == e.pool
  }

  /** They are the pools the events name, both of a move, and nobody else. */
  lemma {:induction false} PoolsNamed(events: seq<Event>, p: Address)
    ensures p in PoolsOf(events) <==> exists i :: 0 <= i < |events| && Names(events[i], p)
  {
    if events != [] {
      PoolsNamed(Init(events), p);
      var n := |events| - 1;
      assert forall i | 0 <= i < n :: Init(events)[i] == events[i];
    }
  }

  /** The foreign keys of the stake tables into `node`. */
  ghost predicate KeysHold(t: Tables, nodes: set<Address>) {
    && (forall k | k in t.history :: k.node in nodes)
    && (forall k | k in t.delegated :: k.0 in nodes)
    && (forall o | o in t.orders :: o.pool in nodes)
  }

  /**
   * One attempt at a block after the committed events `log`; no statement of it ever frees a row of its node.
   * `seats` are the pools of the validators that a new epoch lists, empty when the block starts none: they
   * are inserted if they are not known, and each gets an epoch row with a key into `node`.
   */
  ghost predicate Commits(log: seq<Event>, events: seq<Event>, seats: set<Address>,
                          nodes: set<Address>, known: set<Address>) {
    var t, all := Run(log + events), NodesAfter(events, seats, nodes, known);
    t.Some? && KeysHold(t.value, all) && forall p | p in seats :: p in all
  }

  function NodesAfter(events: seq<Event>, seats: set<Address>, nodes: set<Address>, known: set<Address>): set<Address> {
    nodes + (PoolsOf(events) + seats - known)
  }

  /** An attempt that aborts loses the node rows it inserted, all or the first few, but no dictionary entry. */
  ghost predicate MayKnowAfterAbort(known: set<Address>, events: seq<Event>, seats: set<Address>, after: set<Address>) {
    known <= after <= known + PoolsOf(events) + seats
  }

  /** The pool has a row in some stake table. */
  ghost predicate Booked(log: seq<Event>, p: Address) {
    Known(log, p) || HadOrder(log, p)
  }

  ghost predicate HadOrder(log: seq<Event>, p: Address) {
    log != [] && (HadOrder(Init(log), p) || (Last(log).OrderedWithdrawal? && Last(log).pool == p))
  }

  lemma {:induction false} OrdersBooked(log: seq<Event>, t: Tables, p: Address)
    requires Run(log) == Some(t)
    ensures HadOrder(log, p) <==> exists i :: 0 <= i < |t.orders| && t.orders[i].pool == p
  {
    if log != [] {
      var before := Run(Init(log)).value;
      OrdersBooked(Init(log), before, p);
      VisitBooks(before, Last(log), p);
    }
  }

  lemma VisitBooks(t: Tables, e: Event, p: Address)
    requires Visit(t, e).Some?
    ensures var a, b := t.orders, Visit(t, e).value.orders;
      (exists i :: 0 <= i < |b| && b[i].pool == p) <==>
        (exists i :: 0 <= i < |a| && a[i].pool == p) || (e.OrderedWithdrawal? && e.pool == p)
  {
    hide RecordChange, GetLast, FindOpen;
    var a, b := t.orders, Visit(t, e).value.orders;
    assert forall i | 0 <= i < |a| :: i < |b| && b[i].pool == a[i].pool;
    if e.OrderedWithdrawal? {
      var open := FindOpen(a, e.pool, e.staker);
      var i := if open.Some? then open.value else |a|;
      assert b[i].pool == e.pool;
    }
  }

  lemma {:induction false} DelegationsBooked(log: seq<Event>, t: Tables)
    requires LogOrdered(log) && Run(log) == Some(t)
    ensures forall k | k in t.delegated :: Known(log, k.0)
  {
    hide Visit, Known, GetLast;
    if log != [] {
      var earlier, e, before := Init(log), Last(log), Run(Init(log)).value;
      assert log == earlier + [e];
      DelegationsBooked(earlier, before);
      RunFollows(earlier);
      if e.MovedStake? { KnownHasLast(before.history, earlier, e.source); }
      VisitDelegates(before, earlier, e);
    }
  }

  lemma VisitDelegates(t: Tables, log: seq<Event>, e: Event)
    requires Visit(t, e).Some? && forall k | k in t.delegated :: Known(log, k.0)
    requires e.MovedStake? ==> (GetLast(t.history, e.source).Some? <==> Known(log, e.source))
    ensures forall k | k in Visit(t, e).value.delegated :: Known(log + [e], k.0)
  {
    hide RecordChange, GetLast, FindOpen;
    assert Init(log + [e]) == log && Last(log + [e]) == e;
  }

  lemma HistoryBooked(log: seq<Event>, t: Tables, p: Address)
    requires LogOrdered(log) && Run(log) == Some(t)
    ensures Known(log, p) <==> exists k :: k in t.history && k.node == p
  {
    RunFollows(log);
    KnownHasLast(t.history, log, p);
    ChangesKnown(log, p);
    hide Run, Known, GetLast, Changes;
    assert PoolRows(t.history, p, Changes(log, p));
  }

  ghost predicate AllNodes(log: seq<Event>, nodes: set<Address>) {
    forall p :: Booked(log, p) ==> p in nodes
  }

  /** The keys hold exactly when every booked pool is a node. */
  lemma KeysExactly(log: seq<Event>, t: Tables, nodes: set<Address>)
    requires LogOrdered(log) && Run(log) == Some(t)
    ensures KeysHold(t, nodes) <==> AllNodes(log, nodes)
  {
    hide Run, Known, HadOrder;
    DelegationsBooked(log, t);
    forall p ensures Known(log, p) <==> exists k :: k in t.history && k.node == p { HistoryBooked(log, t, p); }
    forall p ensures HadOrder(log, p) <==> exists i :: 0 <= i < |t.orders| && t.orders[i].pool == p {
      OrdersBooked(log, t, p);
    }
    if KeysHold(t, nodes) {
      forall p | Booked(log, p) ensures p in nodes {
        if HadOrder(log, p) {
          var i :| 0 <= i < |t.orders| && t.orders[i].pool == p;
          assert t.orders[i] in t.orders;
        }
      }
    }
    if AllNodes(log, nodes) {
      forall k | k in t.history ensures k.node in nodes { assert Booked(log, k.node); }
      forall k | k in t.delegated ensures k.0 in nodes { assert Booked(log, k.0); }
      forall o | o in t.orders ensures o.pool in nodes { assert Booked(log, o.pool); }
    }
  }

  lemma {:induction false} BookedByEvents(log: seq<Event>, events: seq<Event>, p: Address)
    requires Booked(log + events, p)
    ensures Booked(log, p) || p in PoolsOf(events)
  {
    if events == [] {
      assert log + events == log;
    } else {
      assert Init(log + events) == log + Init(events) && Last(log + events) == Last(events);
      if Booked(log + Init(events), p) { BookedByEvents(log, Init(events), p); }
    }
  }

  /**
   * An attempt commits, as far as stake and epoch rows go, exactly when it neither books nor seats a pool that
   * is known without being a node. A fresh process, and one that restarts, knows exactly the nodes.
   */
  lemma StuckExactly(log: seq<Event>, events: seq<Event>, seats: set<Address>, nodes: set<Address>,
                     known: set<Address>, before: Tables)
    requires LogOrdered(log + events) && LogOrdered(log) && Run(log) == Some(before) && KeysHold(before, nodes)
    requires nodes <= known
    ensures Commits(log, events, seats, nodes, known) <==>
      Run(log + events).Some? && forall p | p in known && p !in nodes :: !Booked(log + events, p) && p !in seats
  {
    hide Run, Booked, PoolsOf, KeysHold;
    KeysExactly(log, before, nodes);
    var all := NodesAfter(events, seats, nodes, known);
    if Run(log + events).Some? {
      KeysExactly(log + events, Run(log + events).value, all);
      forall p | Booked(log + events, p) ensures p in all <==> p in nodes || p !in known {
        BookedByEvents(log, events, p);
      }
      assert forall p | p in seats :: p in all <==> p in nodes || p !in known;
    }
  }

  /**
   * So a block that a fresh process would commit can, once an attempt has inserted some of its nodes and
   * aborted, never commit before a restart if it books or seats one of them, and every further abort keeps
   * that; after the restart it commits.
   */
  lemma StuckUntilRestart(log: seq<Event>, events: seq<Event>, seats: set<Address>, nodes: set<Address>,
                          known: set<Address>, later: set<Address>, before: Tables)
    requires LogOrdered(log + events) && LogOrdered(log) && Run(log) == Some(before) && KeysHold(before, nodes)
    requires Commits(log, events, seats, nodes, nodes)
    requires MayKnowAfterAbort(nodes, events, seats, known) && MayKnowAfterAbort(known, events, seats, later)
    ensures Commits(log, events, seats, nodes, known) <==>
      forall p | p in known && p !in nodes :: !Booked(log + events, p) && p !in seats
    ensures Commits(log, events, seats, nodes, later) ==> Commits(log, events, seats, nodes, known)
    ensures MayKnowAfterAbort(nodes, events, seats, later)
  {
    hide Run, Booked, PoolsOf, KeysHold, Commits;
    StuckExactly(log, events, seats, nodes, nodes, before);
    StuckExactly(log, events, seats, nodes, known, before);
    StuckExactly(log, events, seats, nodes, later, before);
  }

  /** Stake placed on a pool not seen before: the first attempt could commit, no retry can. */
  lemma FirstStakeStuck(p: Address, b: int)
    ensures var events := [StakeChanged(b, p, p, 100, false)];
      MayKnowAfterAbort({}, events, {}, {p}) && Commits([], events, {}, {}, {}) && !Commits([], events, {}, {}, {p})
  {
    var events := [StakeChanged(b, p, p, 100, false)];
    assert Known(events, p) && PoolsOf(events) == {p};
    assert [] + events == events;
    OnePlacement(p, b);
    StuckExactly([], events, {}, {}, {}, EMPTY);
    StuckExactly([], events, {}, {}, {p}, EMPTY);
    hide Run, Commits, Known;
    assert Booked(events, p);
  }

  lemma OnePlacement(p: Address, b: int)
    ensures Run([]) == Some(EMPTY) && KeysHold(EMPTY, {}) && Run([StakeChanged(b, p, p, 100, false)]).Some?
  {
    var events := [StakeChanged(b, p, p, 100, false)];
    assert events[..0] == [] && LastRows(map[], p) == {};
  }
}
