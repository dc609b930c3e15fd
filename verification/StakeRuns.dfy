/** What every run of stake events leaves in `stake_history` and `ordered_withdrawal`. */
module StakeRuns {
  import opened Common
  import opened StakeTables
  import opened StakeHistory

  ghost predicate AtMostTwo(c: seq<Change>) {
    forall b :: CountAt(c, b) <= 2
  }

  lemma {:induction false} ChangesKnown(log: seq<Event>, p: Address)
    ensures Changes(log, p) != [] <==> Known(log, p)
  {
    if log != [] {
      ChangesKnown(Init(log), p);
    }
  }

  lemma EventChangesBlock(log: seq<Event>, e: Event, p: Address)
    ensures forall ch | ch in EventChanges(log, e, p) :: ch.block == e.block
  {
    hide Known, EffectiveClaim;
  }

  lemma {:induction false} ChangesOrdered(log: seq<Event>, p: Address)
    requires LogOrdered(log)
    ensures Ordered(Changes(log, p))
    ensures log != [] ==> forall ch | ch in Changes(log, p) :: ch.block <= Last(log).block
  {
    if log != [] {
      hide Known, EventChanges;
      var before, e := Init(log), Last(log);
      ChangesOrdered(before, p);
      assert before != [] ==> Last(before).block <= e.block;
      EventChangesBlock(before, e, p);
      OrderedAppend(Changes(before, p), EventChanges(before, e, p), e.block);
    }
  }

  lemma OrderedAppend(c: seq<Change>, d: seq<Change>, b: int)
    requires Ordered(c) && (forall ch | ch in c :: ch.block <= b) && (forall ch | ch in d :: ch.block == b)
    ensures Ordered(c + d) && forall ch | ch in c + d :: ch.block <= b
  {
    assert forall i | 0 <= i < |c| :: c[i] in c;
    assert forall i | 0 <= i < |d| :: d[i] in d;
  }

  // ----- ordered withdrawals -----

  /** What the pair ordered since its last effective claim. */
  ghost function Pending(log: seq<Event>, pool: Address, staker: Address): int {
    if log == [] then 0
    else
      var e, before := Last(log), Pending(Init(log), pool, staker);
      if e.OrderedWithdrawal? && e.pool == pool && e.staker == staker then before + e.amount
      else if e.ClaimedWithdrawal? && e.pool == pool && e.staker == staker && Known(Init(log), pool) then 0
      else before
  }

  /** What the pair ever ordered. */
  ghost function EverOrdered(log: seq<Event>, pool: Address, staker: Address): int {
    if log == [] then 0
    else
      EverOrdered(Init(log), pool, staker) +
      var e := Last(log);
      if e.OrderedWithdrawal? && e.pool == pool && e.staker == staker then e.amount else 0
  }

  /** The amounts of all the pair's rows, claimed or not. */
  ghost function RowsTotal(orders: seq<Order>, pool: Address, staker: Address): int {
    if orders == [] then 0
    else
      RowsTotal(Init(orders), pool, staker) +
      var o := Last(orders);
      if o.pool == pool && o.staker == staker then o.amount else 0
  }

  predicate OpenAt(orders: seq<Order>, i: int, pool: Address, staker: Address) {
    0 <= i < |orders| && IsOpenFor(orders[i], pool, staker)
  }

  /** One unclaimed row if the pair has an open order, else none; no ordered amount is ever lost. */
  ghost predicate PairFollows(orders: seq<Order>, log: seq<Event>, pool: Address, staker: Address) {
    && (HasOpen(log, pool, staker) <==> exists i :: OpenAt(orders, i, pool, staker))
    && (forall i, j | OpenAt(orders, i, pool, staker) && OpenAt(orders, j, pool, staker) :: i == j)
    && (forall i | OpenAt(orders, i, pool, staker) :: orders[i].amount == Pending(log, pool, staker))
    && RowsTotal(orders, pool, staker) == EverOrdered(log, pool, staker)
  }

  ghost predicate OrdersFollow(orders: seq<Order>, log: seq<Event>) {
    forall pool, staker :: PairFollows(orders, log, pool, staker)
  }

  lemma {:induction false} RowsTotalUpdate(orders: seq<Order>, i: nat, o: Order, pool: Address, staker: Address)
    requires i < |orders| && o.pool == orders[i].pool && o.staker == orders[i].staker
    ensures RowsTotal(orders[i := o], pool, staker) == RowsTotal(orders, pool, staker)
      + if o.pool == pool && o.staker == staker then o.amount - orders[i].amount else 0
  {
    if i < |orders| - 1 {
      assert Init(orders[i := o]) == Init(orders)[i := o];
      RowsTotalUpdate(Init(orders), i, o, pool, staker);
    } else {
      assert Init(orders[i := o]) == Init(orders);
    }
  }

  lemma {:induction false} NoOpenOrder(log: seq<Event>, pool: Address, staker: Address)
    requires !HasOpen(log, pool, staker)
    ensures Pending(log, pool, staker) == 0
  {
    if log != [] && !HasOpen(Init(log), pool, staker) { NoOpenOrder(Init(log), pool, staker); }
  }

  lemma OrderStep(log: seq<Event>, e: Event, pool: Address, staker: Address)
    requires e.OrderedWithdrawal?
    ensures var mine := e.pool == pool && e.staker == staker;
      && (HasOpen(log + [e], pool, staker) <==> mine || HasOpen(log, pool, staker))
      && Pending(log + [e], pool, staker) == Pending(log, pool, staker) + (if mine then e.amount else 0)
      && EverOrdered(log + [e], pool, staker) == EverOrdered(log, pool, staker) + (if mine then e.amount else 0)
  {
    assert Init(log + [e]) == log && Last(log + [e]) == e;
  }

  lemma NewOrderKeepsPair(orders: seq<Order>, o: Order, log: seq<Event>, e: Event, pool: Address, staker: Address)
    requires e.OrderedWithdrawal? && OrdersFollow(orders, log) && FindOpen(orders, e.pool, e.staker).None?
    requires o == Order(e.pool, e.staker, e.epoch, e.block, e.amount, None)
    ensures PairFollows(orders + [o], log + [e], pool, staker)
  {
    var after := orders + [o];
    OrderStep(log, e, pool, staker);
    assert PairFollows(orders, log, pool, staker);
    assert PairFollows(orders, log, e.pool, e.staker);
    NoOpenOrder(log, e.pool, e.staker);
    assert RowsTotal(after, pool, staker) == RowsTotal(orders, pool, staker)
      + (if o.pool == pool && o.staker == staker then o.amount else 0) by { assert Init(after) == orders; }
    hide HasOpen, Pending, EverOrdered, RowsTotal, FindOpen;
    assert forall i | 0 <= i < |orders| :: OpenAt(after, i, pool, staker) == OpenAt(orders, i, pool, staker);
    assert pool == e.pool && staker == e.staker <==> OpenAt(after, |orders|, pool, staker);
  }

  lemma RaisedOrderKeepsPair(orders: seq<Order>, i: nat, o: Order, log: seq<Event>, e: Event, pool: Address,
                             staker: Address)
    requires e.OrderedWithdrawal? && OrdersFollow(orders, log) && OpenAt(orders, i, e.pool, e.staker)
    requires o == orders[i].(epoch := e.epoch, block := e.block, amount := orders[i].amount + e.amount)
    ensures PairFollows(orders[i := o], log + [e], pool, staker)
  {
    var after := orders[i := o];
    OrderStep(log, e, pool, staker);
    RowsTotalUpdate(orders, i, o, pool, staker);
    assert PairFollows(orders, log, pool, staker);
    hide HasOpen, Pending, EverOrdered, RowsTotal;
    assert forall j :: OpenAt(after, j, pool, staker) == OpenAt(orders, j, pool, staker);
  }

  lemma OrderKeepsPair(t: Tables, log: seq<Event>, e: Event, pool: Address, staker: Address)
    requires e.OrderedWithdrawal? && OrdersFollow(t.orders, log)
    ensures PairFollows(VisitOrdered(t, e).orders, log + [e], pool, staker)
  {
    hide PairFollows, OrdersFollow;
    match FindOpen(t.orders, e.pool, e.staker)
    case None =>
      NewOrderKeepsPair(t.orders, Order(e.pool, e.staker, e.epoch, e.block, e.amount, None), log, e, pool, staker);
    case Some(i) =>
      RaisedOrderKeepsPair(t.orders, i, VisitOrdered(t, e).orders[i], log, e, pool, staker);
  }

  lemma ClaimStep(log: seq<Event>, e: Event, pool: Address, staker: Address)
    requires e.ClaimedWithdrawal?
    ensures var closes := e.pool == pool && e.staker == staker && Known(log, pool);
      && (HasOpen(log + [e], pool, staker) <==> !closes && HasOpen(log, pool, staker))
      && Pending(log + [e], pool, staker) == (if closes then 0 else Pending(log, pool, staker))
      && EverOrdered(log + [e], pool, staker) == EverOrdered(log, pool, staker)
  {
    assert Init(log + [e]) == log && Last(log + [e]) == e;
  }

  /** The open row of the claim's pair is marked claimed if the claim takes effect; every other row stays equal. */
  ghost predicate ClosesOnly(orders: seq<Order>, after: seq<Order>, e: Event, effective: bool)
    requires e.ClaimedWithdrawal?
  {
    && |after| == |orders|
    && forall i | 0 <= i < |orders| :: after[i] ==
         if effective && OpenAt(orders, i, e.pool, e.staker) then orders[i].(claimedOn := Some(e.block)) else orders[i]
  }

  /** A claim closes the pair's row and leaves the rows of every other pair as they were. */
  lemma ClaimKeepsPair(t: Tables, log: seq<Event>, e: Event, pool: Address, staker: Address)
    requires e.ClaimedWithdrawal? && OrdersFollow(t.orders, log)
    requires GetLast(t.history, e.pool).None? <==> !Known(log, e.pool)
    requires VisitClaimed(t, e).Some?
    ensures PairFollows(VisitClaimed(t, e).value.orders, log + [e], pool, staker)
    ensures ClosesOnly(t.orders, VisitClaimed(t, e).value.orders, e, Known(log, e.pool))
  {
    var orders, after := t.orders, VisitClaimed(t, e).value.orders;
    ClaimStep(log, e, pool, staker);
    assert PairFollows(orders, log, pool, staker);
    var open := FindOpen(orders, e.pool, e.staker);
    hide HasOpen, Pending, EverOrdered, RowsTotal, GetLast, RecordChange, Known;
    if open.None? {
      assert PairFollows(orders, log, e.pool, e.staker);
      NoOpenOrder(log, e.pool, e.staker);
    } else if Known(log, e.pool) {
      var i := open.value;
      RowsTotalUpdate(orders, i, after[i], pool, staker);
      assert OpenAt(orders, i, e.pool, e.staker);
      assert forall j :: OpenAt(after, j, pool, staker) == (OpenAt(orders, j, pool, staker) && j != i);
    }
  }

  lemma OtherEventsKeepOrders(orders: seq<Order>, log: seq<Event>, e: Event)
    requires !e.OrderedWithdrawal? && !e.ClaimedWithdrawal? && OrdersFollow(orders, log)
    ensures OrdersFollow(orders, log + [e])
  {
    assert Init(log + [e]) == log && Last(log + [e]) == e;
    forall pool, staker ensures PairFollows(orders, log + [e], pool, staker) {
      assert PairFollows(orders, log, pool, staker);
    }
  }

  // ----- stake history over a run -----

  ghost predicate HistoryFollows(h: StakeTable, log: seq<Event>) {
    forall p :: PoolRows(h, p, Changes(log, p))
  }

  lemma RecordStep(h: StakeTable, p: Address, c: seq<Change>, ch: Change)
    requires PoolRows(h, p, c) && Ordered(c + [ch])
    ensures var r := RecordChange(h, p, ch.block, ch.delta);
      && (r.Some? <==> AtMostTwo(c + [ch]))
      && (r.Some? ==> PoolRows(r.value, p, c + [ch]) && forall q | q != p :: SameRows(h, r.value, q))
  {
    var r := RecordChange(h, p, ch.block, ch.delta);
    assert Init(c + [ch]) == c && Last(c + [ch]) == ch;
    forall b ensures CountAt(c + [ch], b) == CountAt(c, b) + if b == ch.block then 1 else 0 {}
    if c == [] {
      assert c + [ch] == [ch];
      RecordFirst(h, p, ch);
      assert Init([ch]) == [];
    } else {
      RecordNext(h, p, c, ch);
    }
    assert CountAt(c + [ch], ch.block) == CountAt(c, ch.block) + 1;
    if r.Some? {
      forall q | q != p ensures SameRows(h, r.value, q) { RecordFrame(h, p, ch.block, ch.delta, q); }
    }
  }

  /** Frames every pool but the changed one. */
  lemma HistoryStep(h: StakeTable, g: StakeTable, log: seq<Event>, e: Event, touched: set<Address>)
    requires HistoryFollows(h, log)
    requires forall p | p !in touched :: SameRows(h, g, p) && EventChanges(log, e, p) == []
    requires forall p | p in touched :: PoolRows(g, p, Changes(log, p) + EventChanges(log, e, p))
    ensures HistoryFollows(g, log + [e])
  {
    assert Init(log + [e]) == log && Last(log + [e]) == e;
    forall p ensures PoolRows(g, p, Changes(log + [e], p)) {
      if p !in touched {
        assert Changes(log + [e], p) == Changes(log, p);
        PoolRowsFrame(h, g, p, Changes(log, p));
      }
    }
  }

  /** One effective change of one pool. */
  lemma SingleChange(h: StakeTable, log: seq<Event>, e: Event, p: Address, ch: Change)
    requires HistoryFollows(h, log) && LogOrdered(log + [e])
    requires EventChanges(log, e, p) == [ch]
    requires forall q | q != p :: EventChanges(log, e, q) == []
    ensures var r := RecordChange(h, p, ch.block, ch.delta);
      && (r.Some? <==> forall q :: AtMostTwo(Changes(log + [e], q)))
      && (r.Some? ==> HistoryFollows(r.value, log + [e]))
  {
    assert Init(log + [e]) == log && Last(log + [e]) == e;
    ChangesOrdered(log + [e], p);
    RecordStep(h, p, Changes(log, p), ch);
    var r := RecordChange(h, p, ch.block, ch.delta);
    OthersAtMostTwo(h, log, e, {p});
    assert Changes(log + [e], p) == Changes(log, p) + [ch];
    if r.Some? {
      HistoryStep(h, r.value, log, e, {p});
    }
  }

  lemma OthersAtMostTwo(h: StakeTable, log: seq<Event>, e: Event, touched: set<Address>)
    requires HistoryFollows(h, log)
    requires forall q | q !in touched :: EventChanges(log, e, q) == []
    ensures forall q | q !in touched :: AtMostTwo(Changes(log + [e], q))
  {
    assert Init(log + [e]) == log && Last(log + [e]) == e;
    forall q | q !in touched ensures AtMostTwo(Changes(log + [e], q)) {
      assert Changes(log + [e], q) == Changes(log, q);
      assert PoolRows(h, q, Changes(log, q));
    }
  }

  lemma NoChange(h: StakeTable, log: seq<Event>, e: Event)
    requires HistoryFollows(h, log)
    requires forall q :: EventChanges(log, e, q) == []
    ensures HistoryFollows(h, log + [e]) && forall q :: AtMostTwo(Changes(log + [e], q))
  {
    HistoryStep(h, h, log, e, {});
    OthersAtMostTwo(h, log, e, {});
  }

  lemma MoveWithinChanges(log: seq<Event>, e: Event)
    requires LogOrdered(log + [e]) && e.MovedStake? && Known(log, e.source) && e.source == e.target
    ensures var out, inn := Change(e.block, -e.Wei()), Change(e.block, e.Wei());
      && Changes(log, e.source) + EventChanges(log, e, e.source) == Changes(log, e.source) + [out] + [inn]
      && Changes(log + [e], e.source) == Changes(log, e.source) + [out] + [inn]
      && Ordered(Changes(log, e.source) + [out]) && Ordered(Changes(log, e.source) + [out] + [inn])
    ensures forall q | q != e.source :: EventChanges(log, e, q) == []
  {
    assert Init(log + [e]) == log && Last(log + [e]) == e;
    ChangesOrdered(log + [e], e.source);
    var c, both := Changes(log, e.source), Changes(log + [e], e.source);
    assert both == c + [Change(e.block, -e.Wei())] + [Change(e.block, e.Wei())];
    assert c + [Change(e.block, -e.Wei())] == both[..|c| + 1];
  }

  /** A move within one pool changes it twice. */
  lemma MoveWithin(h: StakeTable, log: seq<Event>, e: Event)
    requires HistoryFollows(h, log) && LogOrdered(log + [e])
    requires e.MovedStake? && Known(log, e.source) && e.source == e.target
    ensures var r1 := RecordChange(h, e.source, e.block, -e.Wei());
      && (r1.None? ==> exists q :: !AtMostTwo(Changes(log + [e], q)))
      && (r1.Some? ==> var r2 := RecordChange(r1.value, e.target, e.block, e.Wei());
            && (r2.Some? <==> forall q :: AtMostTwo(Changes(log + [e], q)))
            && (r2.Some? ==> HistoryFollows(r2.value, log + [e])))
  {
    hide RecordChange, PoolRows, EventChanges, Changes, Known, Ordered;
    var p, out, inn := e.source, Change(e.block, -e.Wei()), Change(e.block, e.Wei());
    var c := Changes(log, p);
    MoveWithinChanges(log, e);
    assert PoolRows(h, p, c);
    RecordStep(h, p, c, out);
    OthersAtMostTwo(h, log, e, {p});
    var r1 := RecordChange(h, p, e.block, out.delta);
    if r1.None? {
      CountAtPrefix(c + [out], [inn]);
      assert !AtMostTwo(Changes(log + [e], p));
    } else {
      hide AtMostTwo;
      var g := r1.value;
      RecordStep(g, p, c + [out], inn);
      var r2 := RecordChange(g, p, e.block, inn.delta);
      assert r2.Some? <==> AtMostTwo(Changes(log + [e], p));
      if r2.Some? {
        SameRowsTwice(h, g, r2.value, p, p);
        HistoryStep(h, r2.value, log, e, {p});
      }
    }
  }

  lemma MoveChanges(log: seq<Event>, e: Event)
    requires LogOrdered(log + [e]) && e.MovedStake? && Known(log, e.source) && e.source != e.target
    ensures var out, inn := Change(e.block, -e.Wei()), Change(e.block, e.Wei());
      && EventChanges(log, e, e.source) == [out] && EventChanges(log, e, e.target) == [inn]
      && Changes(log + [e], e.source) == Changes(log, e.source) + [out]
      && Changes(log + [e], e.target) == Changes(log, e.target) + [inn]
      && Ordered(Changes(log, e.source) + [out]) && Ordered(Changes(log, e.target) + [inn])
    ensures forall q | q !in {e.source, e.target} :: EventChanges(log, e, q) == []
  {
    assert Init(log + [e]) == log && Last(log + [e]) == e;
    ChangesOrdered(log + [e], e.source);
    ChangesOrdered(log + [e], e.target);
  }

  lemma MoveAcross(h: StakeTable, log: seq<Event>, e: Event)
    requires HistoryFollows(h, log) && LogOrdered(log + [e])
    requires e.MovedStake? && Known(log, e.source) && e.source != e.target
    ensures var r1 := RecordChange(h, e.source, e.block, -e.Wei());
      && (r1.None? ==> exists q :: !AtMostTwo(Changes(log + [e], q)))
      && (r1.Some? ==> var r2 := RecordChange(r1.value, e.target, e.block, e.Wei());
            && (r2.Some? <==> forall q :: AtMostTwo(Changes(log + [e], q)))
            && (r2.Some? ==> HistoryFollows(r2.value, log + [e])))
  {
    hide RecordChange, PoolRows, EventChanges, Changes, Known, AtMostTwo, Ordered;
    var src, tgt, out, inn := e.source, e.target, Change(e.block, -e.Wei()), Change(e.block, e.Wei());
    var cs, ct := Changes(log, src), Changes(log, tgt);
    MoveChanges(log, e);
    assert PoolRows(h, src, cs) && PoolRows(h, tgt, ct);
    RecordStep(h, src, cs, out);
    OthersAtMostTwo(h, log, e, {src, tgt});
    var r1 := RecordChange(h, src, e.block, out.delta);
    if r1.None? {
      assert !AtMostTwo(Changes(log + [e], src));
    } else {
      var g := r1.value;
      assert SameRows(h, g, tgt);
      PoolRowsFrame(h, g, tgt, ct);
      RecordStep(g, tgt, ct, inn);
      var r2 := RecordChange(g, tgt, e.block, inn.delta);
      assert r2.Some? <==> AtMostTwo(Changes(log + [e], tgt));
      assert AtMostTwo(Changes(log + [e], src));
      if r2.Some? {
        PoolRowsFrame(g, r2.value, src, cs + [out]);
        SameRowsTwice(h, g, r2.value, src, tgt);
        HistoryStep(h, r2.value, log, e, {src, tgt});
      }
    }
  }

  lemma SameRowsTwice(h: StakeTable, g: StakeTable, k: StakeTable, p: Address, q: Address)
    requires forall x | x != p :: SameRows(h, g, x)
    requires forall x | x != q :: SameRows(g, k, x)
    ensures forall x | x !in {p, q} :: SameRows(h, k, x)
  {
    forall x | x !in {p, q} ensures SameRows(h, k, x) {
      assert SameRows(h, g, x) && SameRows(g, k, x);
    }
  }

  lemma MoveStep(t: Tables, log: seq<Event>, e: Event)
    requires HistoryFollows(t.history, log) && LogOrdered(log + [e])
    requires e.MovedStake? && Known(log, e.source)
    requires GetLast(t.history, e.source).Some?
    ensures var r := VisitMovedStake(t, e);
      && (r.Some? <==> forall q :: AtMostTwo(Changes(log + [e], q)))
      && (r.Some? ==> HistoryFollows(r.value.history, log + [e]))
  {
    hide RecordChange;
    hide HistoryFollows;
    if e.source == e.target { MoveWithin(t.history, log, e); } else { MoveAcross(t.history, log, e); }
  }

  /** Everything the stake tables say about a run. */
  ghost predicate Follows(t: Tables, log: seq<Event>) {
    HistoryFollows(t.history, log) && OrdersFollow(t.orders, log)
  }

  lemma KnownHasLast(h: StakeTable, log: seq<Event>, p: Address)
    requires HistoryFollows(h, log)
    ensures GetLast(h, p).Some? <==> Known(log, p)
  {
    assert PoolRows(h, p, Changes(log, p));
    GetLastFinds(h, p, Changes(log, p));
    ChangesKnown(log, p);
  }

  /** The pool an event changes at most once, and how. */
  lemma SingleVisit(h: StakeTable, log: seq<Event>, e: Event, ch: Change)
    requires HistoryFollows(h, log) && LogOrdered(log + [e]) && !e.MovedStake?
    requires EventChanges(log, e, e.pool) == [ch]
    ensures var r := RecordChange(h, e.pool, ch.block, ch.delta);
      && (r.Some? <==> forall q :: AtMostTwo(Changes(log + [e], q)))
      && (r.Some? ==> HistoryFollows(r.value, log + [e]))
  {
    hide RecordChange;
    assert forall q | q != e.pool :: EventChanges(log, e, q) == [];
    SingleChange(h, log, e, e.pool, ch);
  }

  lemma IdleVisit(h: StakeTable, log: seq<Event>, e: Event)
    requires HistoryFollows(h, log)
    requires if e.MovedStake? then !Known(log, e.source) else EventChanges(log, e, e.pool) == []
    ensures HistoryFollows(h, log + [e]) && forall q :: AtMostTwo(Changes(log + [e], q))
  {
    assert forall q :: EventChanges(log, e, q) == [];
    NoChange(h, log, e);
  }

  lemma HistoryVisit(t: Tables, log: seq<Event>, e: Event)
    requires Follows(t, log) && LogOrdered(log + [e])
    ensures Visit(t, e).Some? <==> forall p :: AtMostTwo(Changes(log + [e], p))
    ensures Visit(t, e).Some? ==> HistoryFollows(Visit(t, e).value.history, log + [e])
  {
    hide RecordChange, GetLast, FindOpen, HistoryFollows, OrdersFollow, AtMostTwo, Changes;
    var h := t.history;
    assert HistoryFollows(h, log) && OrdersFollow(t.orders, log);
    if e.MovedStake? {
      KnownHasLast(h, log, e.source);
      if Known(log, e.source) { MoveStep(t, log, e); } else { IdleVisit(h, log, e); }
    } else {
      KnownHasLast(h, log, e.pool);
      if e.ClaimedWithdrawal? { ClaimIsEffective(t, log, e); }
      var c := EventChanges(log, e, e.pool);
      if c == [] {
        IdleVisit(h, log, e);
      } else {
        SingleVisit(h, log, e, c[0]);
      }
    }
  }

  lemma ClaimIsEffective(t: Tables, log: seq<Event>, e: Event)
    requires e.ClaimedWithdrawal? && OrdersFollow(t.orders, log)
    ensures FindOpen(t.orders, e.pool, e.staker).Some? <==> HasOpen(log, e.pool, e.staker)
  {
    assert PairFollows(t.orders, log, e.pool, e.staker);
    var r := FindOpen(t.orders, e.pool, e.staker);
    if r.Some? { assert OpenAt(t.orders, r.value, e.pool, e.staker); }
  }

  lemma OrdersVisit(t: Tables, log: seq<Event>, e: Event)
    requires Follows(t, log) && Visit(t, e).Some?
    ensures OrdersFollow(Visit(t, e).value.orders, log + [e])
  {
    hide RecordChange;
    if e.OrderedWithdrawal? {
      forall pool, staker { OrderKeepsPair(t, log, e, pool, staker); }
    } else if e.ClaimedWithdrawal? {
      KnownHasLast(t.history, log, e.pool);
      forall pool, staker { ClaimKeepsPair(t, log, e, pool, staker); }
    } else {
      OtherEventsKeepOrders(t.orders, log, e);
    }
  }

  /**
   * A run commits exactly when no pool changes three times in one block, and then every pool's rows
   * tile its life, each carrying the sum of the changes up to the blocks it covers.
   */
  lemma {:induction false} RunFollows(log: seq<Event>)
    requires LogOrdered(log)
    ensures Run(log).Some? <==> forall p :: AtMostTwo(Changes(log, p))
    ensures Run(log).Some? ==> Follows(Run(log).value, log)
  {
    hide Visit;
    hide Follows;
    if log == [] {
      EmptyFollows();
    } else {
      var before, e := Init(log), Last(log);
      assert log == before + [e];
      RunFollows(before);
      if Run(before).Some? {
        var t := Run(before).value;
        HistoryVisit(t, before, e);
        if Visit(t, e).Some? {
          OrdersVisit(t, before, e);
          FollowsBoth(Visit(t, e).value, log);
        }
      } else {
        var p :| !AtMostTwo(Changes(before, p));
        CountAtPrefix(Changes(before, p), EventChanges(before, e, p));
        assert !AtMostTwo(Changes(log, p));
      }
    }
  }

  /** A lookup at any block of the pool's life finds one row, with the stake of that block; the query finds the last. */
  lemma HistoryLookup(log: seq<Event>, p: Address, b: int, t: Tables)
    requires LogOrdered(log) && Run(log) == Some(t) && Changes(log, p) != []
    requires Changes(log, p)[0].block <= b <= Last(Changes(log, p)).block
    ensures exists k :: k in t.history && Covers(k, p, b) && t.history[k] == SumUpTo(Changes(log, p), b)
    ensures forall k, l | k in t.history && l in t.history && Covers(k, p, b) && Covers(l, p, b) :: k == l
    ensures var last := Last(Changes(log, p)).block; GetLast(t.history, p) == Some(StakeKey(last, last, p))
  {
    hide Run, Changes;
    RunFollows(log);
    var c := Changes(log, p);
    assert PoolRows(t.history, p, c);
    GetLastFinds(t.history, p, c);
    assert Covered(t.history, p, b);
    var k :| k in t.history && Covers(k, p, b);
  }

  lemma FollowsBoth(t: Tables, log: seq<Event>)
    requires HistoryFollows(t.history, log) && OrdersFollow(t.orders, log)
    ensures Follows(t, log)
  {
  }

  lemma EmptyFollows()
    ensures Follows(EMPTY, []) && forall p :: AtMostTwo(Changes([], p))
  {
  }

  lemma {:induction false} CountAtPrefix(c: seq<Change>, d: seq<Change>)
    ensures forall b :: CountAt(c, b) <= CountAt(c + d, b)
  {
    if d == [] {
      assert c + d == c;
    } else {
      CountAtPrefix(c, Init(d));
      assert Init(c + d) == c + Init(d);
    }
  }

  // ----- an input that fails -----

  /** A pool's stake placed three times in one block: the third change repeats a key. */
  lemma ThirdChangeFails(p: Address, b: int)
    ensures var e := StakeChanged(b, p, p, 1, false); Run([e, e]).Some? && Run([e, e, e]).None?
  {
    var e, ch := StakeChanged(b, p, p, 1, false), Change(b, 1);
    OneMore([e, e], e, p);
    assert [e, e] + [e] == [e, e, e] && [ch, ch] + [ch] == [ch, ch, ch];
    Placements(p, b, p);
    CountOneMore([ch, ch], ch, b);
    Doubled(ch, b);
    assert !AtMostTwo(Changes([e, e, e], p));
    forall q ensures AtMostTwo(Changes([e, e], q)) {
      Placements(p, b, q);
      forall x ensures CountAt(Changes([e, e], q), x) <= 2 { Doubled(ch, x); }
    }
    hide Run, AtMostTwo;
    RunFollows([e, e]);
    RunFollows([e, e, e]);
  }

  lemma Placements(p: Address, b: int, q: Address)
    ensures var e := StakeChanged(b, p, p, 1, false);
      Changes([e, e], q) == if q == p then [Change(b, 1), Change(b, 1)] else []
  {
    var e := StakeChanged(b, p, p, 1, false);
    OneMore([], e, q);
    OneMore([e], e, q);
    assert [] + [e] == [e] && [e] + [e] == [e, e];
  }

  lemma Doubled(ch: Change, b: int)
    ensures CountAt([], b) == 0 && CountAt([ch, ch], b) == if ch.block == b then 2 else 0
  {
    CountOneMore([], ch, b);
    CountOneMore([ch], ch, b);
    assert [] + [ch] == [ch] && [ch] + [ch] == [ch, ch];
  }

  lemma OneMore(log: seq<Event>, e: Event, p: Address)
    ensures Changes(log + [e], p) == Changes(log, p) + EventChanges(log, e, p)
  {
    assert Init(log + [e]) == log && Last(log + [e]) == e;
  }

  lemma CountOneMore(c: seq<Change>, ch: Change, b: int)
    ensures CountAt(c + [ch], b) == CountAt(c, b) + if ch.block == b then 1 else 0
  {
    assert Init(c + [ch]) == c && Last(c + [ch]) == ch;
  }
}
