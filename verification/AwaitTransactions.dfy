/** `awaitTransactions` of src/tools/awaitTransactions.ts. */
module AwaitTransactions {

  type Hash = int

  /** The transactions of a block. */
  type Chain = int -> set<Hash>

  ghost predicate Occurs(c: Chain, h: Hash, after: int, upTo: int) {
    exists b :: after < b <= upTo && h in c(b)
  }

  /** Array.filter: the hashes not among the block's transactions, in order. */
  function Without(hashes: seq<Hash>, found: set<Hash>): (rest: seq<Hash>)
    ensures |rest| <= |hashes|
    ensures forall h :: h in rest <==> h in hashes && h !in found
  {
    if hashes == [] then []
    else
      var n := |hashes| - 1;
      assert hashes == hashes[..n] + [hashes[n]];
      Without(hashes[..n], found) + if hashes[n] in found then [] else [hashes[n]]
  }

  ghost predicate AllOccur(c: Chain, hashes: seq<Hash>, after: int, upTo: int) {
    forall h | h in hashes :: Occurs(c, h, after, upTo)
  }

  lemma OccursNext(c: Chain, h: Hash, after: int, b: int)
    requires after < b
    ensures Occurs(c, h, after, b) <==> Occurs(c, h, after, b - 1) || h in c(b)
  {
    if Occurs(c, h, after, b - 1) {
      var x :| after < x <= b - 1 && h in c(x);
      assert after < x <= b && h in c(x);
    }
  }

  lemma OccursLater(c: Chain, h: Hash, after: int, b: int, later: int)
    requires Occurs(c, h, after, b) && b <= later
    ensures Occurs(c, h, after, later)
  {
    var x :| after < x <= b && h in c(x);
    assert after < x <= later;
  }

  /**
   * `heights(i)` is the i-th answer of getBlockNumber; the node never reports a lower height than before,
   * and by poll number `patience` every hash has been mined.
   * The result is the first polled height by which they all occur, and each block up to the last one
   * needed is scanned exactly once.
   */
  method Await(c: Chain, heights: nat -> int, blockBeforeTxSend: int, hashes: seq<Hash>, ghost patience: nat)
      returns (lastAnalysedBlock: int, txsConfirmed: nat, ghost scanned: seq<int>, polls: nat)
    requires forall i, j | 0 <= i <= j :: blockBeforeTxSend <= heights(i) <= heights(j)
    requires AllOccur(c, hashes, blockBeforeTxSend, heights(patience))
    ensures AllOccur(c, hashes, blockBeforeTxSend, lastAnalysedBlock)
    ensures txsConfirmed == |hashes|
    ensures forall i | 0 <= i < |scanned| :: scanned[i] == blockBeforeTxSend + 1 + i <= lastAnalysedBlock
    ensures if hashes == [] then polls == 0 && lastAnalysedBlock == blockBeforeTxSend
            else polls > 0 && lastAnalysedBlock == heights(polls - 1)
    ensures forall i | 0 <= i < polls - 1 :: !AllOccur(c, hashes, blockBeforeTxSend, heights(i))
  {
    lastAnalysedBlock := blockBeforeTxSend;
    var transactionHashes := hashes;
    var totalTxs := |hashes|;
    txsConfirmed, scanned, polls := 0, [], 0;
    while |transactionHashes| > 0
      invariant blockBeforeTxSend <= lastAnalysedBlock
      invariant if polls == 0 then lastAnalysedBlock == blockBeforeTxSend else lastAnalysedBlock == heights(polls - 1)
      invariant txsConfirmed + |transactionHashes| == totalTxs
      invariant polls > 0 ==> hashes != []
      invariant polls == 0 ==> |transactionHashes| == |hashes|
      invariant forall h ::
        h in transactionHashes <==> h in hashes && !Occurs(c, h, blockBeforeTxSend, lastAnalysedBlock)
      invariant forall i | 0 <= i < |scanned| :: scanned[i] == blockBeforeTxSend + 1 + i <= lastAnalysedBlock
      invariant transactionHashes != [] ==> |scanned| == lastAnalysedBlock - blockBeforeTxSend
      invariant forall i | 0 <= i < polls - 1 :: !AllOccur(c, hashes, blockBeforeTxSend, heights(i))
      invariant polls <= patience + 1
      decreases patience + 1 - polls
    {
      ghost var missing := transactionHashes[0];
      assert missing in hashes && !Occurs(c, missing, blockBeforeTxSend, lastAnalysedBlock);
      assert !AllOccur(c, hashes, blockBeforeTxSend, lastAnalysedBlock);
      assert polls != patience + 1;
      var currentBlock := heights(polls);
      var blockToAnalyse := lastAnalysedBlock + 1;
      while blockToAnalyse <= currentBlock && |transactionHashes| > 0
        invariant lastAnalysedBlock + 1 <= blockToAnalyse <= currentBlock + 1
        invariant txsConfirmed + |transactionHashes| == totalTxs
        invariant forall h ::
          h in transactionHashes <==> h in hashes && !Occurs(c, h, blockBeforeTxSend, blockToAnalyse - 1)
        invariant |scanned| == blockToAnalyse - 1 - blockBeforeTxSend
        invariant forall i | 0 <= i < |scanned| :: scanned[i] == blockBeforeTxSend + 1 + i
      {
        var transactions := c(blockToAnalyse);
        var txCountBeforeFilter := |transactionHashes|;
        forall h { OccursNext(c, h, blockBeforeTxSend, blockToAnalyse); }
        transactionHashes := Without(transactionHashes, transactions);
        txsConfirmed := txsConfirmed + (txCountBeforeFilter - |transactionHashes|);
        scanned := scanned + [blockToAnalyse];
        blockToAnalyse := blockToAnalyse + 1;
      }
      lastAnalysedBlock := currentBlock;
      polls := polls + 1;
      forall h ensures h in transactionHashes <==> h in hashes && !Occurs(c, h, blockBeforeTxSend, lastAnalysedBlock) {
        if transactionHashes == [] && h in hashes {
          OccursLater(c, h, blockBeforeTxSend, blockToAnalyse - 1, lastAnalysedBlock);
        }
      }
    }
    assert forall h | h in hashes :: h !in transactionHashes;
  }
}
