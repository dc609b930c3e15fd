/** src/db/bonusScoreProcessor.ts over the bonus score statements of src/db/database-persistent.ts. */
module BonusScoreProcessor {
  import opened Common
  import opened BonusScores
  import BonusRuns

  class BonusScoreProcessor {
    var history: BonusTable
    var nodeScore: map<Address, int>
    var currentBonusScores: map<Address, int>
    const chain: Chain
    const BATCH_SIZE: nat := 50

    constructor (chain: Chain, cache: map<Address, int>)
      ensures this.chain == chain && Some(State()) == Run(cache, [], chain)
    {
      this.chain := chain;
      history, nodeScore, currentBonusScores := map[], map[], cache;
    }

    function State(): Scores
      reads this
    {
      Scores(history, nodeScore, currentBonusScores)
    }

    method UpdateBonusScore(pool: Address, bonusScore: int, changeBlock: int) returns (ok: bool)
      modifies this`history, this`nodeScore
      ensures ok <==> Update(old(State()), pool, changeBlock, bonusScore).Some?
      ensures ok <==> BonusKey(pool, changeBlock) !in old(history)
      ensures ok ==> Some(State()) == Update(old(State()), pool, changeBlock, bonusScore)
    {
      history := CloseOpen(history, pool, changeBlock - 1);
      var k := BonusKey(pool, changeBlock);
      if k in history { return false; }
      history := history[k := BonusRow(None, bonusScore)];
      if pool in nodeScore { nodeScore := nodeScore[pool := bonusScore]; }
      return true;
    }

    /** insertNode of src/db/runFillDb.ts: the node row, its first history row, the cache. */
    method InsertNode(pool: Address, blockNumber: int) returns (ok: bool)
      modifies this
      ensures ok <==> Register(old(State()), pool, blockNumber, chain(pool, blockNumber)).Some?
      ensures ok <==> pool !in old(nodeScore) && BonusKey(pool, blockNumber) !in old(history)
      ensures ok ==> Some(State()) == Register(old(State()), pool, blockNumber, chain(pool, blockNumber))
    {
      var currentScore := chain(pool, blockNumber);
      if pool in nodeScore { return false; }
      nodeScore := nodeScore[pool := currentScore];
      if BonusKey(pool, blockNumber) in history { return false; }
      history := history[BonusKey(pool, blockNumber) := BonusRow(None, currentScore)];
      currentBonusScores := currentBonusScores[pool := currentScore];
      return true;
    }

    /** A failed update is logged and the loop goes on, but its transaction takes no further statement. */
    method ProcessBatch(pools: seq<Address>, blockNumber: int) returns (ok: bool)
      modifies this
      ensures ok <==> ProcessAll(old(State()), pools, blockNumber, chain).Some?
      ensures ok ==> Some(State()) == ProcessAll(old(State()), pools, blockNumber, chain)
    {
      hide Update;
      ok := true;
      var i := 0;
      while i < |pools|
        invariant 0 <= i <= |pools|
        invariant ok <==> ProcessAll(old(State()), pools[..i], blockNumber, chain).Some?
        invariant ok ==> ProcessAll(old(State()), pools[..i], blockNumber, chain) == Some(State())
      {
        var pool := pools[i];
        assert pools[..i + 1][..i] == pools[..i];
        var currentScore := chain(pool, blockNumber);
        if ok && !(pool in currentBonusScores && currentBonusScores[pool] == currentScore) {
          ok := UpdateBonusScore(pool, currentScore, blockNumber);
          if ok { currentBonusScores := currentBonusScores[pool := currentScore]; }
        }
        i := i + 1;
      }
      assert pools[..i] == pools;
    }

    /** Batches of fifty leave what one pass over all pools leaves. */
    method ProcessBonusScore(blockNumber: int, allPools: seq<Address>) returns (ok: bool)
      modifies this
      ensures ok <==> ProcessAll(old(State()), allPools, blockNumber, chain).Some?
      ensures ok ==> Some(State()) == ProcessAll(old(State()), allPools, blockNumber, chain)
    {
      hide ProcessAll;
      if |allPools| > BATCH_SIZE {
        var i := 0;
        BonusRuns.NoPools(State(), blockNumber, chain);
        while i < |allPools|
          invariant 0 <= i <= |allPools|
          invariant ProcessAll(old(State()), allPools[..i], blockNumber, chain) == Some(State())
        {
          var end := if i + BATCH_SIZE <= |allPools| then i + BATCH_SIZE else |allPools|;
          BonusRuns.ProcessInBatches(old(State()), allPools[..i], allPools[i..end], blockNumber, chain);
          assert allPools[..i] + allPools[i..end] == allPools[..end];
          BonusRuns.ProcessInBatches(old(State()), allPools[..end], allPools[end..], blockNumber, chain);
          assert allPools[..end] + allPools[end..] == allPools;
          ok := ProcessBatch(allPools[i..end], blockNumber);
          if !ok { return; }
          i := end;
        }
        assert allPools[..i] == allPools;
        ok := true;
      } else {
        ok := ProcessBatch(allPools, blockNumber);
      }
    }

    method InsertNewNodes(nodes: seq<Address>, blockNumber: int) returns (ok: bool)
      modifies this
      ensures ok <==> RegisterAll(old(State()), nodes, blockNumber, chain).Some?
      ensures ok ==> Some(State()) == RegisterAll(old(State()), nodes, blockNumber, chain)
    {
      hide Register;
      var i := 0;
      while i < |nodes|
        invariant 0 <= i <= |nodes|
        invariant RegisterAll(old(State()), nodes[..i], blockNumber, chain) == Some(State())
      {
        assert nodes[..i + 1][..i] == nodes[..i];
        RegisterPrefix(old(State()), nodes, i + 1, blockNumber, chain);
        ok := InsertNode(nodes[i], blockNumber);
        if !ok { return; }
        i := i + 1;
      }
      assert nodes[..i] == nodes;
      ok := true;
    }

    /** One committed block of a well-formed run: the encoding is kept for every pool. */
    method FillBlock(block: Block, ghost cache: map<Address, int>, ghost blocks: seq<Block>)
      requires BonusRuns.WellFormed(blocks + [block]) && Run(cache, blocks, chain) == Some(State())
      modifies this
      ensures Run(cache, blocks + [block], chain) == Some(State())
      ensures forall p :: Tracks(State(), p, Observed(blocks + [block], p), chain)
    {
      BonusRuns.RunTracks(cache, blocks + [block], chain);
      assert (blocks + [block])[..|blocks|] == blocks;
      hide RegisterAll, ProcessAll, BonusRuns.WellFormed;
      var ok := InsertNewNodes(block.newNodes, block.number);
      ok := ProcessBonusScore(block.number, block.pools);
    }
  }

  lemma {:induction false} RegisterPrefix(s: Scores, nodes: seq<Address>, n: nat, b: int, chain: Chain)
    requires n <= |nodes|
    ensures RegisterAll(s, nodes, b, chain).Some? ==> RegisterAll(s, nodes[..n], b, chain).Some?
    decreases |nodes|
  {
    hide Register;
    if n == |nodes| {
      assert nodes[..n] == nodes;
    } else {
      RegisterPrefix(s, nodes[..|nodes| - 1], n, b, chain);
      assert nodes[..|nodes| - 1][..n] == nodes[..n];
    }
  }
}
