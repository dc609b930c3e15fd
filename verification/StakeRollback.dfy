/** The statement of `deleteDataFromBlock` on `stake_history`: it deletes late rows and reopens none. */
module StakeRollback {
  import opened Common
  import opened StakeTables
  import opened StakeHistory
  import opened StakeRuns

  function DeleteHistoryFrom(h: StakeTable, b: int): StakeTable {
    map k | k in h && k.fromBlock < b :: h[k]
  }

  /** What the changes `d` after `c` leave of the pool's earlier rows: the last one has a new end. */
  ghost function Reclosed(p: Address, c: seq<Change>, d: seq<Change>): StakeTable {
    var r := RowsOf(p, c);
    if c == [] || d == [] then r
    else
      var last := Last(c).block;
      (r - {StakeKey(last, last, p)})[StakeKey(last, d[0].block - 1, p) := Sum(c)]
  }

  lemma {:induction false} RowsOfFrom(p: Address, c: seq<Change>, b: int)
    requires forall i | 0 <= i < |c| :: b <= c[i].block
    ensures forall k | k in RowsOf(p, c) :: b <= k.fromBlock && k.node == p
  {
    if c != [] { RowsOfFrom(p, Init(c), b); }
  }

  lemma {:induction false} RowsOfBefore(p: Address, c: seq<Change>, b: int)
    requires Below(c, b)
    ensures forall k | k in RowsOf(p, c) :: k.fromBlock < b && k.toBlock < b && k.node == p
    ensures c != [] ==> var tip := StakeKey(Last(c).block, Last(c).block, p);
      tip in RowsOf(p, c) && RowsOf(p, c)[tip] == Sum(c)
  {
    if c != [] { RowsOfBefore(p, Init(c), b); }
  }

  ghost predicate Below(c: seq<Change>, b: int) {
    forall i | 0 <= i < |c| :: c[i].block < b
  }

  ghost predicate From(d: seq<Change>, b: int) {
    forall i | 0 <= i < |d| :: b <= d[i].block
  }

  lemma EarlierRowsBase(p: Address, c: seq<Change>, d: seq<Change>, b: int)
    requires Below(c, b) && From(d, b) && (c == [] || d == [])
    ensures DeleteHistoryFrom(RowsOf(p, c + d), b) == Reclosed(p, c, d)
  {
    hide RowsOf, DeleteHistoryFrom;
    if d == [] {
      assert c + d == c;
      RowsOfBefore(p, c, b);
      DeleteNothing(RowsOf(p, c), b);
    } else {
      assert c + d == d;
      RowsOfFrom(p, d, b);
      DeleteAll(RowsOf(p, d), b);
      NoChangesNoRows(p);
    }
  }

  lemma EarlierRowsFirst(p: Address, c: seq<Change>, ch: Change, b: int)
    requires Below(c, b) && b <= ch.block && c != []
    ensures DeleteHistoryFrom(RowsOf(p, c + [ch]), b) == Reclosed(p, c, [ch])
  {
    RowsOfAppend(p, c, [ch]);
    assert Init([ch]) == [] && c + [] == c;
    RowsOfBefore(p, c, b);
    hide RowsOf, Sum, Grow, DeleteHistoryFrom;
    GrowFirst(RowsOf(p, c), p, c, ch, b);
  }

  lemma EarlierRowsNext(p: Address, c: seq<Change>, d: seq<Change>, b: int)
    requires Below(c, b) && From(d, b) && c != [] && |d| > 1
    ensures DeleteHistoryFrom(RowsOf(p, c + d), b) == DeleteHistoryFrom(RowsOf(p, c + Init(d)), b)
  {
    RowsOfAppend(p, c, d);
    assert Last(c + Init(d)) == d[|d| - 2];
    hide RowsOf, DeleteHistoryFrom, Grow;
    GrowLate(RowsOf(p, c + Init(d)), p, c + Init(d), Last(d), b);
  }

  /** Later changes touch no earlier row but the last. */
  lemma {:induction false} EarlierRows(p: Address, c: seq<Change>, d: seq<Change>, b: int)
    requires Below(c, b) && From(d, b)
    ensures DeleteHistoryFrom(RowsOf(p, c + d), b) == Reclosed(p, c, d)
  {
    hide RowsOf, DeleteHistoryFrom, Sum;
    if c == [] || d == [] {
      EarlierRowsBase(p, c, d, b);
    } else if |d| == 1 {
      assert d == [d[0]];
      EarlierRowsFirst(p, c, d[0], b);
    } else {
      assert Init(d)[0] == d[0];
      EarlierRows(p, c, Init(d), b);
      EarlierRowsNext(p, c, d, b);
    }
  }

  lemma DeleteNothing(h: StakeTable, b: int)
    requires forall k | k in h :: k.fromBlock < b
    ensures DeleteHistoryFrom(h, b) == h
  {
  }

  lemma DeleteAll(h: StakeTable, b: int)
    requires forall k | k in h :: b <= k.fromBlock
    ensures DeleteHistoryFrom(h, b) == map[]
  {
  }

  lemma NoChangesNoRows(p: Address)
    ensures RowsOf(p, []) == map[]
  {
  }

  lemma RowsOfAppend(p: Address, c: seq<Change>, d: seq<Change>)
    requires d != []
    ensures RowsOf(p, c + d) == Grow(RowsOf(p, c + Init(d)), p, c + Init(d), Last(d))
  {
    hide Grow;
    assert Init(c + d) == c + Init(d) && Last(c + d) == Last(d);
  }

  lemma GrowFirst(r: StakeTable, p: Address, c: seq<Change>, ch: Change, b: int)
    requires c != [] && Last(c).block < b <= ch.block && forall k | k in r :: k.fromBlock < b
    ensures DeleteHistoryFrom(Grow(r, p, c, ch), b) ==
      (r - {StakeKey(Last(c).block, Last(c).block, p)})[StakeKey(Last(c).block, ch.block - 1, p) := Sum(c)]
  {
    hide Sum;
  }

  lemma GrowLate(r: StakeTable, p: Address, c: seq<Change>, ch: Change, b: int)
    requires c != [] && b <= Last(c).block && b <= ch.block
    ensures DeleteHistoryFrom(Grow(r, p, c, ch), b) == DeleteHistoryFrom(r, b)
  {
  }

  /** The pool is new, unchanged since, or changed next in the block right after its last change. */
  ghost predicate Restorable(c: seq<Change>, d: seq<Change>) {
    c == [] || d == [] || d[0].block == Last(c).block + 1
  }

  lemma PoolRestored(p: Address, c: seq<Change>, d: seq<Change>, b: int)
    requires Below(c, b) && From(d, b)
    ensures Restorable(c, d) <==> DeleteHistoryFrom(RowsOf(p, c + d), b) == RowsOf(p, c)
  {
    EarlierRows(p, c, d, b);
    RowsOfBefore(p, c, b);
    if c != [] && d != [] {
      var tip := StakeKey(Last(c).block, Last(c).block, p);
      if d[0].block != Last(c).block + 1 {
        assert tip !in Reclosed(p, c, d);
      }
    }
  }

  /** What changed the pool after the first `n` events. */
  ghost function LaterChanges(log: seq<Event>, n: nat, p: Address): seq<Change>
    requires n <= |log|
    decreases |log|
  {
    if n == |log| then [] else LaterChanges(Init(log), n, p) + EventChanges(Init(log), Last(log), p)
  }

  /** A caller can tell from the events alone whether deleting after the first `n` restores the pool. */
  ghost predicate RestorableAfter(log: seq<Event>, n: nat, p: Address)
    requires n <= |log|
  {
    Restorable(Changes(log[..n], p), LaterChanges(log, n, p))
  }

  lemma {:induction false} ChangesSplit(log: seq<Event>, n: nat, p: Address)
    requires n <= |log|
    ensures Changes(log, p) == Changes(log[..n], p) + LaterChanges(log, n, p)
    decreases |log|
  {
    hide Known, EventChanges;
    if n == |log| {
      assert log[..n] == log;
    } else {
      ChangesSplit(Init(log), n, p);
      assert Init(log)[..n] == log[..n];
    }
  }

  lemma {:induction false} LaterChangesFrom(log: seq<Event>, n: nat, p: Address, b: int)
    requires n <= |log| && forall i | n <= i < |log| :: b <= log[i].block
    ensures forall ch | ch in LaterChanges(log, n, p) :: b <= ch.block
    decreases |log|
  {
    if n < |log| {
      LaterChangesFrom(Init(log), n, p, b);
      EventChangesBlock(Init(log), Last(log), p);
    }
  }

  lemma {:induction false} ChangesBefore(log: seq<Event>, p: Address, b: int)
    requires forall i | 0 <= i < |log| :: log[i].block < b
    ensures forall ch | ch in Changes(log, p) :: ch.block < b
  {
    if log != [] {
      ChangesBefore(Init(log), p, b);
      EventChangesBlock(Init(log), Last(log), p);
    }
  }

  lemma RestoredRows(h0: StakeTable, h1: StakeTable, p: Address, c: seq<Change>, d: seq<Change>, b: int)
    requires SameRows(RowsOf(p, c), h0, p) && SameRows(RowsOf(p, c + d), h1, p)
    requires Below(c, b) && From(d, b)
    ensures SameRows(h0, DeleteHistoryFrom(h1, b), p) <==> Restorable(c, d)
  {
    PoolRestored(p, c, d, b);
    RowsOfBefore(p, c, b);
    RowsOfOwn(p, c + d);
    hide RowsOf, Restorable;
    var r, s := RowsOf(p, c), DeleteHistoryFrom(RowsOf(p, c + d), b);
    if SameRows(h0, DeleteHistoryFrom(h1, b), p) {
      assert forall k :: k in r <==> k in s;
      assert r == s;
    }
  }

  lemma {:induction false} RowsOfOwn(p: Address, c: seq<Change>)
    ensures forall k | k in RowsOf(p, c) :: k.node == p
  {
    if c != [] { RowsOfOwn(p, Init(c)); }
  }

  lemma RunPinned(log: seq<Event>, p: Address)
    requires LogOrdered(log) && Run(log).Some?
    ensures SameRows(RowsOf(p, Changes(log, p)), Run(log).value.history, p)
  {
    RunFollows(log);
    assert PoolRows(Run(log).value.history, p, Changes(log, p));
  }

  lemma {:induction false} RunPrefix(log: seq<Event>, n: nat)
    requires n <= |log| && Run(log).Some?
    ensures Run(log[..n]).Some?
    decreases |log|
  {
    if n == |log| {
      assert log[..n] == log;
    } else {
      RunPrefix(Init(log), n);
      assert Init(log)[..n] == log[..n];
    }
  }

  lemma SameTable(g: StakeTable, h: StakeTable)
    ensures g == h <==> forall p :: SameRows(g, h, p)
  {
    if forall p :: SameRows(g, h, p) {
      forall k: StakeKey ensures (k in g <==> k in h) && (k in g ==> g[k] == h[k]) {
        assert SameRows(g, h, k.node);
      }
    }
  }

  /**
   * The DELETE statement for block `b` brings back the table of the first `n` events exactly when every pool that
   * had a row and changed at or after `b` first did so in the block right after its last change.
   */
  lemma HistoryDeleted(log: seq<Event>, n: nat, b: int, before: Tables, after: Tables)
    requires n <= |log| && LogOrdered(log)
    requires Run(log[..n]) == Some(before) && Run(log) == Some(after)
    requires forall i | 0 <= i < n :: log[i].block < b
    requires forall i | n <= i < |log| :: b <= log[i].block
    ensures DeleteHistoryFrom(after.history, b) == before.history <==>
      forall p :: RestorableAfter(log, n, p)
  {
    hide *;
    forall p ensures SameRows(before.history, DeleteHistoryFrom(after.history, b), p) <==> RestorableAfter(log, n, p) {
      PoolRollback(log, n, b, p, before.history, after.history);
    }
    SameTable(before.history, DeleteHistoryFrom(after.history, b));
  }

  lemma PoolRollback(log: seq<Event>, n: nat, b: int, p: Address, h0: StakeTable, h1: StakeTable)
    requires n <= |log| && LogOrdered(log)
    requires Run(log[..n]).Some? && Run(log[..n]).value.history == h0
    requires Run(log).Some? && Run(log).value.history == h1
    requires forall i | 0 <= i < n :: log[i].block < b
    requires forall i | n <= i < |log| :: b <= log[i].block
    ensures SameRows(h0, DeleteHistoryFrom(h1, b), p) <==> RestorableAfter(log, n, p)
  {
    hide Run, Restorable, Changes, LaterChanges, Known, EventChanges, SameRows, RowsOf, DeleteHistoryFrom;
    var c, d := Changes(log[..n], p), LaterChanges(log, n, p);
    RunPinned(log[..n], p);
    RunPinned(log, p);
    ChangesSplit(log, n, p);
    LaterChangesFrom(log, n, p, b);
    ChangesBefore(log[..n], p, b);
    assert forall i | 0 <= i < |c| :: c[i] in c;
    assert forall i | 0 <= i < |d| :: d[i] in d;
    RestoredRows(h0, h1, p, c, d, b);
  }

  /** No row begins at `b` or later. */
  predicate AllBegun(h: StakeTable, b: int) {
    forall k | k in h :: k.fromBlock < b
  }

  /** The table is still that of the first `n` events exactly when the DELETE statement has nothing to delete. */
  lemma HistoryUnchanged(log: seq<Event>, n: nat, b: int, before: Tables, after: Tables)
    requires n <= |log| && LogOrdered(log)
    requires Run(log[..n]) == Some(before) && Run(log) == Some(after)
    requires forall i | 0 <= i < n :: log[i].block < b
    requires forall i | n <= i < |log| :: b <= log[i].block
    ensures after.history == before.history <==> AllBegun(after.history, b)
  {
    hide Run, Restorable, Changes, LaterChanges, DeleteHistoryFrom;
    RunsBegun(log[..n], before, b);
    if AllBegun(after.history, b) {
      forall p ensures RestorableAfter(log, n, p) { PoolUnchanged(log, n, b, p, after); }
      HistoryDeleted(log, n, b, before, after);
      BegunKept(after.history, b);
    }
  }

  lemma BegunKept(h: StakeTable, b: int)
    requires AllBegun(h, b)
    ensures DeleteHistoryFrom(h, b) == h
  {
  }

  lemma RunsBegun(log: seq<Event>, t: Tables, b: int)
    requires LogOrdered(log) && Run(log) == Some(t) && forall i | 0 <= i < |log| :: log[i].block < b
    ensures AllBegun(t.history, b)
  {
    hide Run, Changes;
    forall k | k in t.history ensures k.fromBlock < b {
      var c := Changes(log, k.node);
      RunPinned(log, k.node);
      ChangesBefore(log, k.node, b);
      assert forall i | 0 <= i < |c| :: c[i] in c;
      RowsOfBefore(k.node, c, b);
    }
  }

  lemma PoolUnchanged(log: seq<Event>, n: nat, b: int, p: Address, after: Tables)
    requires n <= |log| && LogOrdered(log) && Run(log) == Some(after)
    requires forall i | n <= i < |log| :: b <= log[i].block
    requires AllBegun(after.history, b)
    ensures RestorableAfter(log, n, p)
  {
    hide Run, Changes, LaterChanges, RowsOf;
    var c, d := Changes(log[..n], p), LaterChanges(log, n, p);
    if d != [] {
      RunPinned(log, p);
      ChangesSplit(log, n, p);
      LaterChangesFrom(log, n, p, b);
      assert Last(d) in d && Last(c + d) == Last(d);
      LastPointIn(p, c + d);
    }
  }

  lemma LastPointIn(p: Address, c: seq<Change>)
    requires c != []
    ensures StakeKey(Last(c).block, Last(c).block, p) in RowsOf(p, c)
  {
  }

  /** The pool had a row and next changed at a block after `b`, so a row from before `b` ends at `b` or later. */
  ghost predicate Crosses(c: seq<Change>, d: seq<Change>, b: int) {
    c != [] && d != [] && d[0].block > b
  }

  ghost predicate CrossesAfter(log: seq<Event>, n: nat, p: Address, b: int)
    requires n <= |log|
  {
    Crosses(Changes(log[..n], p), LaterChanges(log, n, p), b)
  }

  ghost predicate RowCrosses(h: StakeTable, k: StakeKey, b: int) {
    k in h && k.fromBlock < b <= k.toBlock
  }

  lemma PoolCrosses(h: StakeTable, p: Address, c: seq<Change>, d: seq<Change>, b: int)
    requires Below(c, b) && From(d, b) && SameRows(RowsOf(p, c + d), h, p)
    ensures Crosses(c, d, b) <==> exists k: StakeKey | k.node == p :: RowCrosses(h, k, b)
  {
    EarlierRows(p, c, d, b);
    RowsOfBefore(p, c, b);
    RowsOfOwn(p, c + d);
    hide RowsOf;
    var kept, r := DeleteHistoryFrom(RowsOf(p, c + d), b), Reclosed(p, c, d);
    if Crosses(c, d, b) {
      var moved := StakeKey(Last(c).block, d[0].block - 1, p);
      assert moved in r && moved in kept;
      assert RowCrosses(h, moved, b);
    }
    if k: StakeKey :| k.node == p && RowCrosses(h, k, b) {
      assert k in kept && k in r;
    }
  }

  /** Some row begins before `b` and ends at `b` or later exactly when some pool crosses `b`. */
  lemma HistoryCrosses(log: seq<Event>, n: nat, b: int, after: Tables)
    requires n <= |log| && LogOrdered(log) && Run(log) == Some(after)
    requires forall i | 0 <= i < n :: log[i].block < b
    requires forall i | n <= i < |log| :: b <= log[i].block
    ensures (exists k :: RowCrosses(after.history, k, b)) <==> exists p :: CrossesAfter(log, n, p, b)
  {
    hide Run, Crosses, Changes, LaterChanges, RowsOf, RowCrosses;
    forall p
      ensures CrossesAfter(log, n, p, b) <==> exists k: StakeKey | k.node == p :: RowCrosses(after.history, k, b)
    {
      var c, d := Changes(log[..n], p), LaterChanges(log, n, p);
      RunPinned(log, p);
      ChangesSplit(log, n, p);
      LaterChangesFrom(log, n, p, b);
      ChangesBefore(log[..n], p, b);
      assert forall i | 0 <= i < |c| :: c[i] in c;
      assert forall i | 0 <= i < |d| :: d[i] in d;
      PoolCrosses(after.history, p, c, d, b);
    }
    if k :| RowCrosses(after.history, k, b) { assert CrossesAfter(log, n, k.node, b); }
  }
}
