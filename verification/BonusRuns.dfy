/** What runs, restarts and rollbacks leave in `bonus_score_history`. */
module BonusRuns {
  import opened Common
  import opened BonusScores

  /** Numbers increase, a node is inserted once, and only inserted nodes are listed (the node foreign key). */
  ghost predicate WellFormed(blocks: seq<Block>) {
    blocks == [] ||
    var n := |blocks| - 1;
    var before, last := blocks[..n], blocks[n];
    && WellFormed(before)
    && (n > 0 ==> before[n - 1].number < last.number)
    && (forall i, j | 0 <= i < j < |last.newNodes| :: last.newNodes[i] != last.newNodes[j])
    && (forall p | p in last.newNodes :: Observed(before, p) == [])
    && (forall p | p in last.pools :: Observed(before, p) != [] || p in last.newNodes)
  }

  lemma {:induction false} ObservedOrdered(blocks: seq<Block>, p: Address)
    requires WellFormed(blocks)
    ensures Ordered(Observed(blocks, p))
    ensures forall b | b in Observed(blocks, p) :: blocks != [] && b <= blocks[|blocks| - 1].number
  {
    if blocks != [] {
      var before := blocks[..|blocks| - 1];
      ObservedOrdered(before, p);
      var obs := Observed(before, p);
      assert forall i | 0 <= i < |obs| :: obs[i] in obs;
    }
  }

  /** The observations of `p` while block `b` runs; `seen` are the pools it has read so far. */
  ghost function Reading(blocks: seq<Block>, p: Address, b: int, seen: seq<Address>): seq<int> {
    Observed(blocks, p) + if p in seen then [b] else []
  }

  ghost predicate AllTrack(s: Scores, blocks: seq<Block>, b: int, seen: seq<Address>, chain: Chain) {
    forall p :: Tracks(s, p, Reading(blocks, p, b, seen), chain)
  }

  lemma {:induction false} RegisterAllTracks(s: Scores, blocks: seq<Block>, nodes: seq<Address>, b: int, chain: Chain)
    requires AllTrack(s, blocks, b, [], chain)
    requires forall i, j | 0 <= i < j < |nodes| :: nodes[i] != nodes[j]
    requires forall i | 0 <= i < |nodes| :: Observed(blocks, nodes[i]) == []
    ensures RegisterAll(s, nodes, b, chain).Some?
    ensures AllTrack(RegisterAll(s, nodes, b, chain).value, blocks, b, nodes, chain)
  {
    hide AllTrack, Register, Observed;
    if nodes == [] {
      assert nodes == [];
    } else {
      var n := |nodes| - 1;
      var before, p := nodes[..n], nodes[n];
      RegisterAllTracks(s, blocks, before, b, chain);
      RegisterOneTracks(RegisterAll(s, before, b, chain).value, blocks, before, p, b, chain);
      assert before + [p] == nodes;
    }
  }

  lemma RegisterOneTracks(t: Scores, blocks: seq<Block>, seen: seq<Address>, p: Address, b: int, chain: Chain)
    requires AllTrack(t, blocks, b, seen, chain) && p !in seen && Observed(blocks, p) == []
    ensures Register(t, p, b, chain(p, b)).Some?
    ensures AllTrack(Register(t, p, b, chain(p, b)).value, blocks, b, seen + [p], chain)
  {
    assert Reading(blocks, p, b, seen) == [] && Reading(blocks, p, b, seen + [p]) == [b];
    assert Tracks(t, p, [], chain);
    RegisterTracks(t, p, b, chain);
    var u := Register(t, p, b, chain(p, b)).value;
    assert forall q | q != p :: SamePool(t, u, q);
    hide Tracks, Register, SamePool, Observed;
    forall q ensures Tracks(u, q, Reading(blocks, q, b, seen + [p]), chain) {
      if q != p {
        assert Reading(blocks, q, b, seen + [p]) == Reading(blocks, q, b, seen);
        TracksFrame(t, u, q, Reading(blocks, q, b, seen), chain);
      }
    }
  }

  lemma {:induction false} ProcessAllTracks(s: Scores, blocks: seq<Block>, seen: seq<Address>, pools: seq<Address>,
                                            b: int, chain: Chain)
    requires WellFormed(blocks) && (blocks != [] ==> blocks[|blocks| - 1].number < b)
    requires AllTrack(s, blocks, b, seen, chain)
    requires forall p | p in pools :: Observed(blocks, p) != [] || p in seen
    ensures ProcessAll(s, pools, b, chain).Some?
    ensures AllTrack(ProcessAll(s, pools, b, chain).value, blocks, b, seen + pools, chain)
  {
    if pools == [] {
      assert seen + pools == seen;
    } else {
      var n := |pools| - 1;
      var before, p := pools[..n], pools[n];
      assert forall q | q in before :: q in pools;
      ProcessAllTracks(s, blocks, seen, before, b, chain);
      var t := ProcessAll(s, before, b, chain).value;
      assert p in pools;
      ProcessOneTracks(t, blocks, seen + before, p, b, chain);
      assert seen + before + [p] == seen + pools;
    }
  }

  lemma ProcessOneTracks(t: Scores, blocks: seq<Block>, seen: seq<Address>, p: Address, b: int, chain: Chain)
    requires WellFormed(blocks) && (blocks != [] ==> blocks[|blocks| - 1].number < b)
    requires AllTrack(t, blocks, b, seen, chain)
    requires Observed(blocks, p) != [] || p in seen
    ensures ProcessPool(t, p, b, chain(p, b)).Some?
    ensures AllTrack(ProcessPool(t, p, b, chain(p, b)).value, blocks, b, seen + [p], chain)
  {
    var obs := Reading(blocks, p, b, seen);
    assert Tracks(t, p, obs, chain);
    if p !in seen {
      ObservedOrdered(blocks, p);
      assert forall i | 0 <= i < |obs| :: obs[i] in obs;
      ProcessTracks(t, p, obs, b, chain);
      assert Reading(blocks, p, b, seen + [p]) == obs + [b];
    } else {
      assert obs[|obs| - 1] == b;
      assert Reading(blocks, p, b, seen + [p]) == obs;
    }
    hide Tracks, ProcessPool, Observed, WellFormed;
    var u := ProcessPool(t, p, b, chain(p, b)).value;
    forall q ensures Tracks(u, q, Reading(blocks, q, b, seen + [p]), chain) {
      if q != p {
        assert Tracks(t, q, Reading(blocks, q, b, seen), chain);
        assert Reading(blocks, q, b, seen + [p]) == Reading(blocks, q, b, seen);
        ProcessFrame(t, p, b, chain(p, b), q);
        TracksFrame(t, u, q, Reading(blocks, q, b, seen), chain);
      }
    }
  }

  lemma ProcessFrame(s: Scores, p: Address, b: int, score: int, q: Address)
    requires q != p && ProcessPool(s, p, b, score).Some?
    ensures SamePool(s, ProcessPool(s, p, b, score).value, q)
  {
  }

  /** Every run of well-formed blocks commits and leaves each pool's scores run-length encoded. */
  lemma {:induction false} RunTracks(cache: map<Address, int>, blocks: seq<Block>, chain: Chain)
    requires WellFormed(blocks)
    ensures Run(cache, blocks, chain).Some?
    ensures forall p :: Tracks(Run(cache, blocks, chain).value, p, Observed(blocks, p), chain)
  {
    if blocks != [] {
      var n := |blocks| - 1;
      var before, block := blocks[..n], blocks[n];
      RunTracks(cache, before, chain);
      var s, b := Run(cache, before, chain).value, block.number;
      BlockTracks(s, before, block, chain);
      forall p ensures Tracks(ProcessBlock(s, block, chain).value, p, Observed(blocks, p), chain) {
        assert Observed(blocks, p) == Reading(before, p, b, block.newNodes + block.pools);
      }
    }
  }

  lemma BlockTracks(s: Scores, blocks: seq<Block>, block: Block, chain: Chain)
    requires WellFormed(blocks + [block])
    requires forall p :: Tracks(s, p, Observed(blocks, p), chain)
    ensures ProcessBlock(s, block, chain).Some?
    ensures AllTrack(ProcessBlock(s, block, chain).value, blocks, block.number, block.newNodes + block.pools, chain)
  {
    assert (blocks + [block])[..|blocks|] == blocks;
    var b := block.number;
    assert AllTrack(s, blocks, b, [], chain) by {
      forall p ensures Tracks(s, p, Reading(blocks, p, b, []), chain) {
        assert Reading(blocks, p, b, []) == Observed(blocks, p);
      }
    }
    RegisterAllTracks(s, blocks, block.newNodes, b, chain);
    ProcessAllTracks(RegisterAll(s, block.newNodes, b, chain).value, blocks, block.newNodes, block.pools, b, chain);
  }

  /** A pool read at every processed block shows the chain's own score at each of them. */
  lemma {:induction false} ReadBlockIsExact(obs: seq<int>, b: int)
    requires Ordered(obs) && b in obs
    ensures LastAt(obs, b) == b
  {
    var n := |obs| - 1;
    if obs[n] > b {
      assert b in obs[..n];
      ReadBlockIsExact(obs[..n], b);
    }
  }

  lemma ExactlyOneRow(cache: map<Address, int>, blocks: seq<Block>, chain: Chain, p: Address, b: int)
    requires WellFormed(blocks) && b in Observed(blocks, p)
    ensures Run(cache, blocks, chain).Some?
    ensures var h := Run(cache, blocks, chain).value.history;
      && (exists k :: Covers(h, k, p, b) && h[k].score == chain(p, b))
      && (forall k, l | Covers(h, k, p, b) && Covers(h, l, p, b) :: k == l)
  {
    RunTracks(cache, blocks, chain);
    var h, obs := Run(cache, blocks, chain).value.history, Observed(blocks, p);
    assert Tracks(Run(cache, blocks, chain).value, p, obs, chain);
    ObservedOrdered(blocks, p);
    ReadBlockIsExact(obs, b);
    var i :| 0 <= i < |obs| && obs[i] == b;
    assert obs[0] <= b;
    assert Covered(h, p, b);
    var k :| Covers(h, k, p, b);
  }

  // ----- batches -----

  lemma {:induction false} ProcessInBatches(s: Scores, a: seq<Address>, c: seq<Address>, b: int, chain: Chain)
    ensures ProcessAll(s, a + c, b, chain) ==
      if ProcessAll(s, a, b, chain).None? then None else ProcessAll(ProcessAll(s, a, b, chain).value, c, b, chain)
  {
    hide ProcessPool;
    if c == [] {
      assert a + c == a;
    } else {
      var n := |c| - 1;
      ProcessInBatches(s, a, c[..n], b, chain);
      assert (a + c)[..|a| + n] == a + c[..n];
    }
  }

  lemma NoPools(s: Scores, b: int, chain: Chain)
    ensures ProcessAll(s, [], b, chain) == Some(s)
  {
  }

  // ----- restart -----

  /** A restarted process begins without a cache and `init` loads it at the block handled next. */
  function Reload(s: Scores, pools: seq<Address>, b: int, chain: Chain): Scores {
    s.(cache := ReadAll(pools, b, chain))
  }

  lemma {:induction false} ReloadedIdle(s: Scores, pools: seq<Address>, b: int, chain: Chain)
    requires forall p | p in pools :: p in s.cache && s.cache[p] == chain(p, b)
    ensures ProcessAll(s, pools, b, chain) == Some(s)
  {
    if pools != [] {
      var n := |pools| - 1;
      assert forall p | p in pools[..n] :: p in pools;
      ReloadedIdle(s, pools[..n], b, chain);
      assert pools[n] in pools;
    }
  }

  /** Whether some row of `p` carries the chain's score at `b`. */
  ghost predicate RightAt(h: BonusTable, p: Address, b: int, chain: Chain) {
    exists k :: Covers(h, k, p, b) && h[k].score == chain(p, b)
  }

  /** A block that writes nothing leaves its row right exactly when the score did not change in it. */
  lemma IdleExact(s: Scores, p: Address, obs: seq<int>, b: int, chain: Chain)
    requires Tracks(s, p, obs, chain) && obs != [] && Ordered(obs) && obs[|obs| - 1] < b
    ensures RightAt(s.history, p, b, chain) <==> chain(p, b) == chain(p, obs[|obs| - 1])
  {
    LastAtEnd(obs, b);
    assert obs[0] <= obs[|obs| - 1];
    assert Covered(s.history, p, b);
    var k :| Covers(s.history, k, p, b);
  }

  /**
   * The first block after a restart writes nothing, so its row is right exactly when the pool's score
   * did not change in that block.
   */
  lemma RestartExact(cache: map<Address, int>, blocks: seq<Block>, chain: Chain, pools: seq<Address>, b: int,
                     p: Address, s: Scores)
    requires WellFormed(blocks) && blocks != [] && blocks[|blocks| - 1].number < b
    requires Observed(blocks, p) != [] && Run(cache, blocks, chain) == Some(s)
    ensures var t, obs := ProcessAll(Reload(s, pools, b, chain), pools, b, chain), Observed(blocks, p);
      t.Some? && (RightAt(t.value.history, p, b, chain) <==> chain(p, b) == chain(p, obs[|obs| - 1]))
  {
    RunTracks(cache, blocks, chain);
    ReloadedIdle(Reload(s, pools, b, chain), pools, b, chain);
    ObservedOrdered(blocks, p);
    var obs := Observed(blocks, p);
    assert obs[|obs| - 1] in obs;
    IdleExact(s, p, obs, b, chain);
  }

  lemma {:induction false} ProcessedCache(s: Scores, pools: seq<Address>, b: int, chain: Chain)
    requires ProcessAll(s, pools, b, chain).Some?
    ensures var t := ProcessAll(s, pools, b, chain).value;
      forall i | 0 <= i < |pools| :: pools[i] in t.cache && t.cache[pools[i]] == chain(pools[i], b)
  {
    if pools != [] {
      ProcessedCache(s, pools[..|pools| - 1], b, chain);
    }
  }

  /**
   * An abort after the scores were processed restores the rows but not the cache, so the retry writes
   * nothing and the block's row is right exactly when the score did not change in it.
   */
  lemma AbortedRetry(cache: map<Address, int>, blocks: seq<Block>, chain: Chain, pools: seq<Address>, b: int,
                     p: Address, s: Scores)
    requires WellFormed(blocks) && blocks != [] && blocks[|blocks| - 1].number < b
    requires Observed(blocks, p) != [] && Run(cache, blocks, chain) == Some(s)
    requires ProcessAll(s, pools, b, chain).Some?
    ensures var aborted := s.(cache := ProcessAll(s, pools, b, chain).value.cache);
      var t, obs := ProcessAll(aborted, pools, b, chain), Observed(blocks, p);
      t.Some? && (RightAt(t.value.history, p, b, chain) <==> chain(p, b) == chain(p, obs[|obs| - 1]))
  {
    RunTracks(cache, blocks, chain);
    ProcessedCache(s, pools, b, chain);
    ReloadedIdle(s.(cache := ProcessAll(s, pools, b, chain).value.cache), pools, b, chain);
    ObservedOrdered(blocks, p);
    var obs := Observed(blocks, p);
    assert obs[|obs| - 1] in obs;
    IdleExact(s, p, obs, b, chain);
  }

  // ----- rollback -----

  /** deleteDataFromBlock on this table: delete the late rows, close the ones that reach `b`. */
  function DeleteFrom(h: BonusTable, b: int): BonusTable {
    map k | k in h && k.fromBlock < b ::
      if h[k].toBlock.None? || h[k].toBlock.value >= b then h[k].(toBlock := Some(b - 1)) else h[k]
  }

  /** Rows below `b` are those of `g`, except that open ones may have been closed at `b - 1` or later. */
  ghost predicate Extends(g: BonusTable, h: BonusTable, b: int) {
    && (forall k | k in g ::
          && k in h && h[k].score == g[k].score
          && (h[k] == g[k] || (g[k].toBlock.None? && h[k].toBlock.Some? && h[k].toBlock.value >= b - 1)))
    && (forall k | k in h && k !in g :: k.fromBlock >= b)
  }

  lemma {:induction false} ExtendsBlock(g: BonusTable, s: Scores, block: Block, chain: Chain, b: int)
    requires Extends(g, s.history, b) && b <= block.number && ProcessBlock(s, block, chain).Some?
    ensures Extends(g, ProcessBlock(s, block, chain).value.history, b)
  {
    ExtendsRegister(g, s, block.newNodes, block.number, chain, b);
    ExtendsProcess(g, RegisterAll(s, block.newNodes, block.number, chain).value, block.pools, block.number, chain, b);
  }

  lemma {:induction false} ExtendsRegister(g: BonusTable, s: Scores, nodes: seq<Address>, n: int, chain: Chain, b: int)
    requires Extends(g, s.history, b) && b <= n && RegisterAll(s, nodes, n, chain).Some?
    ensures Extends(g, RegisterAll(s, nodes, n, chain).value.history, b)
  {
    if nodes != [] { ExtendsRegister(g, s, nodes[..|nodes| - 1], n, chain, b); }
  }

  lemma {:induction false} ExtendsProcess(g: BonusTable, s: Scores, pools: seq<Address>, n: int, chain: Chain, b: int)
    requires Extends(g, s.history, b) && b <= n && ProcessAll(s, pools, n, chain).Some?
    ensures Extends(g, ProcessAll(s, pools, n, chain).value.history, b)
  {
    if pools != [] { ExtendsProcess(g, s, pools[..|pools| - 1], n, chain, b); }
  }

  lemma {:induction false} ExtendsRun(cache: map<Address, int>, blocks: seq<Block>, n: nat, chain: Chain, b: int)
    requires n <= |blocks| && Run(cache, blocks, chain).Some?
    requires forall i | n <= i < |blocks| :: b <= blocks[i].number
    ensures Run(cache, blocks[..n], chain).Some?
    ensures Extends(Run(cache, blocks[..n], chain).value.history, Run(cache, blocks, chain).value.history, b)
    decreases |blocks|
  {
    hide ProcessBlock;
    if n == |blocks| {
      assert blocks[..n] == blocks;
    } else {
      var before := blocks[..|blocks| - 1];
      assert before[..n] == blocks[..n];
      ExtendsRun(cache, before, n, chain, b);
      var g := Run(cache, blocks[..n], chain).value.history;
      ExtendsBlock(g, Run(cache, before, chain).value, blocks[|blocks| - 1], chain, b);
    }
  }

  ghost function ClosedAt(g: BonusTable, toBlock: int): BonusTable {
    map k | k in g :: if g[k].toBlock.None? then g[k].(toBlock := Some(toBlock)) else g[k]
  }

  lemma RollbackCloses(g: BonusTable, h: BonusTable, b: int)
    requires Extends(g, h, b)
    requires forall k | k in g :: k.fromBlock < b && (g[k].toBlock.Some? ==> g[k].toBlock.value < b)
    ensures DeleteFrom(h, b) == ClosedAt(g, b - 1)
    ensures forall k, p, x :: Covers(ClosedAt(g, b - 1), k, p, x) <==> x < b && Covers(g, k, p, x)
  {
  }

  lemma RowsBelow(cache: map<Address, int>, blocks: seq<Block>, chain: Chain, b: int)
    requires WellFormed(blocks) && forall i | 0 <= i < |blocks| :: blocks[i].number < b
    ensures Run(cache, blocks, chain).Some?
    ensures var g := Run(cache, blocks, chain).value.history;
      forall k | k in g :: k.fromBlock < b && (g[k].toBlock.Some? ==> g[k].toBlock.value < b - 1)
  {
    RunTracks(cache, blocks, chain);
    var s := Run(cache, blocks, chain).value;
    forall k | k in s.history
      ensures k.fromBlock < b && (s.history[k].toBlock.Some? ==> s.history[k].toBlock.value < b - 1)
    {
      var obs := Observed(blocks, k.node);
      assert Tracks(s, k.node, obs, chain);
      ObservedOrdered(blocks, k.node);
      assert obs != [] && obs[|obs| - 1] in obs;
    }
  }

  lemma RowsNonempty(cache: map<Address, int>, blocks: seq<Block>, chain: Chain)
    requires WellFormed(blocks)
    ensures Run(cache, blocks, chain).Some?
    ensures var h := Run(cache, blocks, chain).value.history;
      forall k | k in h && h[k].toBlock.Some? :: k.fromBlock <= h[k].toBlock.value
  {
    RunTracks(cache, blocks, chain);
    var s := Run(cache, blocks, chain).value;
    forall k | k in s.history && s.history[k].toBlock.Some? ensures k.fromBlock <= s.history[k].toBlock.value {
      assert Tracks(s, k.node, Observed(blocks, k.node), chain);
    }
  }

  /**
   * The two statements for `b` give the table after the blocks below `b` with every open row closed at `b - 1`:
   * lookups below `b` are unchanged and nothing covers `b` or later.
   */
  lemma BonusDeleted(cache: map<Address, int>, blocks: seq<Block>, n: nat, chain: Chain, b: int, before: Scores,
                     after: Scores)
    requires n <= |blocks| && WellFormed(blocks)
    requires forall i | 0 <= i < n :: blocks[i].number < b
    requires forall i | n <= i < |blocks| :: b <= blocks[i].number
    requires Run(cache, blocks[..n], chain) == Some(before) && Run(cache, blocks, chain) == Some(after)
    ensures DeleteFrom(after.history, b) == ClosedAt(before.history, b - 1)
    ensures forall k, p, x ::
      Covers(DeleteFrom(after.history, b), k, p, x) <==> x < b && Covers(before.history, k, p, x)
  {
    hide Run;
    ExtendsRun(cache, blocks, n, chain, b);
    WellFormedPrefix(blocks, n);
    RowsBelow(cache, blocks[..n], chain, b);
    hide *;
    RollbackCloses(before.history, after.history, b);
  }

  ghost predicate NothingObserved(blocks: seq<Block>) {
    forall p :: Observed(blocks, p) == []
  }

  /** So they restore the rows themselves exactly when none of them was open. */
  lemma BonusDeletedExact(cache: map<Address, int>, blocks: seq<Block>, n: nat, chain: Chain, b: int, before: Scores,
                          after: Scores)
    requires n <= |blocks| && WellFormed(blocks)
    requires forall i | 0 <= i < n :: blocks[i].number < b
    requires forall i | n <= i < |blocks| :: b <= blocks[i].number
    requires Run(cache, blocks[..n], chain) == Some(before) && Run(cache, blocks, chain) == Some(after)
    ensures DeleteFrom(after.history, b) == before.history <==> NothingObserved(blocks[..n])
  {
    hide Run;
    BonusDeleted(cache, blocks, n, chain, b, before, after);
    WellFormedPrefix(blocks, n);
    RunTracks(cache, blocks[..n], chain);
    var g := before.history;
    forall p ensures Observed(blocks[..n], p) == [] <==> forall k | k in g :: k.node != p {
      OpenRowExists(before, p, Observed(blocks[..n], p), chain);
    }
    if NothingObserved(blocks[..n]) {
      forall k: BonusKey ensures k !in g { assert Observed(blocks[..n], k.node) == []; }
      assert ClosedAt(g, b - 1) == g;
    } else {
      var p :| Observed(blocks[..n], p) != [];
      OpenRowExists(before, p, Observed(blocks[..n], p), chain);
      var k :| k in g && k.node == p && g[k].toBlock.None?;
      assert ClosedAt(g, b - 1)[k] != g[k];
    }
  }

  /** No row begins at `b` or later. */
  predicate AllBegun(h: BonusTable, b: int) {
    forall k | k in h :: k.fromBlock < b
  }

  /** The table is still the earlier one exactly when there is no late row. */
  lemma BonusUnchanged(cache: map<Address, int>, blocks: seq<Block>, n: nat, chain: Chain, b: int,
                       before: Scores, after: Scores)
    requires n <= |blocks| && WellFormed(blocks)
    requires forall i | 0 <= i < n :: blocks[i].number < b
    requires forall i | n <= i < |blocks| :: b <= blocks[i].number
    requires Run(cache, blocks[..n], chain) == Some(before) && Run(cache, blocks, chain) == Some(after)
    ensures after.history == before.history <==> AllBegun(after.history, b)
  {
    hide Run, WellFormed, Observed;
    ExtendsRun(cache, blocks, n, chain, b);
    WellFormedPrefix(blocks, n);
    RowsBelow(cache, blocks[..n], chain, b);
    RunTracks(cache, blocks, chain);
    var g, h := before.history, after.history;
    if AllBegun(h, b) {
      forall k | k in g ensures h[k] == g[k] {
        if h[k] != g[k] {
          assert Tracks(after, k.node, Observed(blocks, k.node), chain);
          ClosedHasNext(after, k, Observed(blocks, k.node), chain, b);
        }
      }
    }
  }

  /** After a row closed at `b - 1` or later comes one that begins at `b` or later. */
  lemma ClosedHasNext(s: Scores, k: BonusKey, obs: seq<int>, chain: Chain, b: int)
    requires Tracks(s, k.node, obs, chain) && k in s.history
    requires s.history[k].toBlock.Some? && s.history[k].toBlock.value >= b - 1
    ensures !AllBegun(s.history, b)
  {
    hide Differs, LastAt;
    var p, end := k.node, s.history[k].toBlock.value;
    assert Covered(s.history, p, end + 1);
    var l :| Covers(s.history, l, p, end + 1);
    assert Covers(s.history, k, p, end);
    assert Covers(s.history, l, p, end) ==> l == k;
  }

  function WithoutLate(h: BonusTable, b: int): BonusTable {
    map k | k in h && k.fromBlock < b :: h[k]
  }

  /** The first statement alone restores the table exactly when no earlier row was closed since. */
  lemma LateRowsDeleted(cache: map<Address, int>, blocks: seq<Block>, n: nat, chain: Chain, b: int,
                        before: Scores, after: Scores)
    requires n <= |blocks| && WellFormed(blocks)
    requires forall i | 0 <= i < n :: blocks[i].number < b
    requires forall i | n <= i < |blocks| :: b <= blocks[i].number
    requires Run(cache, blocks[..n], chain) == Some(before) && Run(cache, blocks, chain) == Some(after)
    ensures WithoutLate(after.history, b) == before.history <==> NoneClosedSince(after.history, b)
    ensures forall k, p, x | x < b :: Covers(after.history, k, p, x) <==> Covers(before.history, k, p, x)
  {
    hide Run, WellFormed, Observed;
    ExtendsRun(cache, blocks, n, chain, b);
    WellFormedPrefix(blocks, n);
    RowsBelow(cache, blocks[..n], chain, b);
  }

  predicate NoneClosedSince(h: BonusTable, b: int) {
    forall k | k in h && k.fromBlock < b && h[k].toBlock.Some? :: h[k].toBlock.value < b - 1
  }

  lemma OpenRowExists(s: Scores, p: Address, obs: seq<int>, chain: Chain)
    requires Tracks(s, p, obs, chain)
    ensures if obs == [] then forall k | k in s.history :: k.node != p
            else exists k :: k in s.history && k.node == p && s.history[k].toBlock.None?
  {
    if obs != [] {
      var x := if obs[0] <= obs[|obs| - 1] then obs[|obs| - 1] else obs[0];
      assert Covered(s.history, p, x);
      var k :| Covers(s.history, k, p, x);
    }
  }

  lemma {:induction false} WellFormedPrefix(blocks: seq<Block>, n: nat)
    requires n <= |blocks| && WellFormed(blocks)
    ensures WellFormed(blocks[..n])
    decreases |blocks|
  {
    if n == |blocks| {
      assert blocks[..n] == blocks;
    } else {
      WellFormedPrefix(blocks[..|blocks| - 1], n);
      assert blocks[..|blocks| - 1][..n] == blocks[..n];
    }
  }

  /** A pool registered with score 7 at block 1: the statements for block 2 close its open row. */
  lemma OpenRowNotRestored(p: Address)
    ensures var run := Run(map[], [Block(1, [p], [p])], (q, b) => 7);
      && run.Some? && run.value.history == map[BonusKey(p, 1) := BonusRow(None, 7)]
      && DeleteFrom(run.value.history, 2) == map[BonusKey(p, 1) := BonusRow(Some(1), 7)]
  {
    var chain: Chain := (q, b) => 7;
    var blocks := [Block(1, [p], [p])];
    assert blocks[..0] == [] && [p][..0] == [];
    var s := Scores(map[BonusKey(p, 1) := BonusRow(None, 7)], map[p := 7], map[p := 7]);
    assert RegisterAll(Scores(map[], map[], map[]), [p], 1, chain) == Some(s);
    assert ProcessAll(s, [p], 1, chain) == Some(s);
    assert Run(map[], [], chain) == Some(Scores(map[], map[], map[]));
  }
}
