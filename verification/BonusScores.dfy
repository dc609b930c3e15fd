/** `bonus_score_history` as the run-length encoding of the chain's scores (src/db/bonusScoreProcessor.ts). */
module BonusScores {
  import opened Common

  datatype BonusKey = BonusKey(node: Address, fromBlock: int)

  datatype BonusRow = BonusRow(toBlock: Option<int>, score: int)

  type BonusTable = map<BonusKey, BonusRow>

  /** The history table, the scores in the `node` table and the processor's cache. */
  datatype Scores = Scores(history: BonusTable, nodeScore: map<Address, int>, cache: map<Address, int>)

  /** The score the chain reports for a pool at a block. */
  type Chain = (Address, int) -> int

  /** A processed block: its number, the nodes first seen in it, the pools listed at it. */
  datatype Block = Block(number: int, newNodes: seq<Address>, pools: seq<Address>)

  function CloseOpen(h: BonusTable, p: Address, toBlock: int): BonusTable {
    map k | k in h :: if k.node == p && h[k].toBlock.None? then h[k].(toBlock := Some(toBlock)) else h[k]
  }

  /** insertNode followed by registerNewNode; nothing on a duplicate key. */
  function Register(s: Scores, p: Address, b: int, score: int): Option<Scores> {
    var k := BonusKey(p, b);
    if p in s.nodeScore || k in s.history then None
    else Some(Scores(s.history[k := BonusRow(None, score)], s.nodeScore[p := score], s.cache[p := score]))
  }

  function Update(s: Scores, p: Address, b: int, score: int): Option<Scores> {
    var k, closed := BonusKey(p, b), CloseOpen(s.history, p, b - 1);
    if k in closed then None
    else
      Some(s.(history := closed[k := BonusRow(None, score)],
              nodeScore := if p in s.nodeScore then s.nodeScore[p := score] else s.nodeScore))
  }

  function ProcessPool(s: Scores, p: Address, b: int, score: int): Option<Scores> {
    if p in s.cache && s.cache[p] == score then Some(s)
    else
      var t :- Update(s, p, b, score);
      Some(t.(cache := t.cache[p := score]))
  }

  function RegisterAll(s: Scores, nodes: seq<Address>, b: int, chain: Chain): Option<Scores> {
    if nodes == [] then Some(s)
    else
      var t :- RegisterAll(s, nodes[..|nodes| - 1], b, chain);
      Register(t, nodes[|nodes| - 1], b, chain(nodes[|nodes| - 1], b))
  }

  function ProcessAll(s: Scores, pools: seq<Address>, b: int, chain: Chain): Option<Scores> {
    if pools == [] then Some(s)
    else
      var t :- ProcessAll(s, pools[..|pools| - 1], b, chain);
      ProcessPool(t, pools[|pools| - 1], b, chain(pools[|pools| - 1], b))
  }

  /** The cache entries that reading the pools at a block leaves. */
  function ReadAll(pools: seq<Address>, b: int, chain: Chain): map<Address, int> {
    map p | p in pools :: chain(p, b)
  }

  function ProcessBlock(s: Scores, block: Block, chain: Chain): Option<Scores> {
    var t :- RegisterAll(s, block.newNodes, block.number, chain);
    ProcessAll(t, block.pools, block.number, chain)
  }

  /** A run from empty tables; the cache may hold anything. */
  function Run(cache: map<Address, int>, blocks: seq<Block>, chain: Chain): Option<Scores> {
    if blocks == [] then Some(Scores(map[], map[], cache))
    else
      var s :- Run(cache, blocks[..|blocks| - 1], chain);
      ProcessBlock(s, blocks[|blocks| - 1], chain)
  }

  // ----- the reference: which blocks observed a pool -----

  /** The blocks at which the run read the pool's score. */
  function Observed(blocks: seq<Block>, p: Address): seq<int> {
    if blocks == [] then []
    else
      var last := blocks[|blocks| - 1];
      Observed(blocks[..|blocks| - 1], p) + if p in last.newNodes || p in last.pools then [last.number] else []
  }

  /** The last observation at or before `b`, or the first one. */
  function LastAt(obs: seq<int>, b: int): int
    requires obs != []
  {
    var n := |obs| - 1;
    if obs[n] <= b || n == 0 then obs[n] else LastAt(obs[..n], b)
  }

  ghost predicate Ordered(obs: seq<int>) {
    forall i, j | 0 <= i < j < |obs| :: obs[i] <= obs[j]
  }

  // ----- the table against the reference -----

  predicate Covers(h: BonusTable, k: BonusKey, p: Address, b: int) {
    k in h && k.node == p && k.fromBlock <= b && (h[k].toBlock.None? || b <= h[k].toBlock.value)
  }

  ghost predicate Covered(h: BonusTable, p: Address, b: int) {
    exists k :: Covers(h, k, p, b)
  }

  /** A row of `p` ends right before `k` with another score. */
  ghost predicate Differs(h: BonusTable, k: BonusKey)
    requires k in h
  {
    exists l :: l in h && l.node == k.node && h[l].toBlock == Some(k.fromBlock - 1) && h[l].score != h[k].score
  }

  /** Rows lie inside the pool's life; exactly the row reaching its end is open. */
  ghost predicate Inside(h: BonusTable, p: Address, first: int, last: int) {
    forall k | k in h && k.node == p ::
      && first <= k.fromBlock <= last
      && (h[k].toBlock.Some? ==> k.fromBlock <= h[k].toBlock.value < last)
  }

  ghost predicate CoveredFrom(h: BonusTable, p: Address, first: int) {
    forall b | first <= b :: Covered(h, p, b)
  }

  ghost predicate CoveredOnce(h: BonusTable, p: Address) {
    forall k, l, b | Covers(h, k, p, b) && Covers(h, l, p, b) :: k == l
  }

  /** A row carries the last observed score at the blocks it covers. */
  ghost predicate Scored(h: BonusTable, p: Address, obs: seq<int>, chain: Chain)
    requires obs != []
  {
    forall k, b | Covers(h, k, p, b) :: h[k].score == chain(p, LastAt(obs, b))
  }

  /** A new row starts only where the score changed. */
  ghost predicate Stepwise(h: BonusTable, p: Address, first: int) {
    forall k {:trigger Differs(h, k)} | k in h && k.node == p && k.fromBlock != first :: Differs(h, k)
  }

  /** The rows of `p` are the run-length encoding of the scores observed. */
  ghost predicate Encodes(h: BonusTable, p: Address, obs: seq<int>, chain: Chain) {
    if obs == [] then forall k | k in h :: k.node != p
    else
      && Inside(h, p, obs[0], obs[|obs| - 1])
      && CoveredFrom(h, p, obs[0]) && CoveredOnce(h, p)
      && Scored(h, p, obs, chain)
      && Stepwise(h, p, obs[0])
  }

  ghost predicate Tracks(s: Scores, p: Address, obs: seq<int>, chain: Chain) {
    && Encodes(s.history, p, obs, chain)
    && (p in s.nodeScore <==> obs != [])
    && (obs != [] ==> p in s.cache && s.cache[p] == s.nodeScore[p] == chain(p, obs[|obs| - 1]))
  }

  ghost predicate SamePool(s: Scores, t: Scores, p: Address) {
    && (forall k: BonusKey | k.node == p ::
          (k in s.history <==> k in t.history) && (k in s.history ==> s.history[k] == t.history[k]))
    && (p in s.nodeScore <==> p in t.nodeScore)
    && (p in s.nodeScore ==> s.nodeScore[p] == t.nodeScore[p])
    && (p in s.cache <==> p in t.cache)
    && (p in s.cache ==> s.cache[p] == t.cache[p])
  }

  lemma TracksFrame(s: Scores, t: Scores, p: Address, obs: seq<int>, chain: Chain)
    requires Tracks(s, p, obs, chain) && SamePool(s, t, p)
    ensures Tracks(t, p, obs, chain)
  {
    var g, h := s.history, t.history;
    assert forall k, b :: Covers(g, k, p, b) == Covers(h, k, p, b);
    hide LastAt;
    if obs != [] {
      forall b | obs[0] <= b ensures Covered(h, p, b) {
        assert Covered(g, p, b);
        var k :| Covers(g, k, p, b);
        assert Covers(h, k, p, b);
      }
      forall k | k in h && k.node == p && k.fromBlock != obs[0] ensures Differs(h, k) {
        assert Differs(g, k);
        var l :| l in g && l.node == k.node && g[l].toBlock == Some(k.fromBlock - 1) && g[l].score != g[k].score;
        assert l in h;
      }
    }
  }

  lemma RegisterTracks(s: Scores, p: Address, b: int, chain: Chain)
    requires Tracks(s, p, [], chain)
    ensures Register(s, p, b, chain(p, b)).Some?
    ensures Tracks(Register(s, p, b, chain(p, b)).value, p, [b], chain)
  {
    var k := BonusKey(p, b);
    assert k !in s.history;
    var h := Register(s, p, b, chain(p, b)).value.history;
    assert forall l | l in h && l.node == p :: l == k;
    forall x | b <= x ensures Covered(h, p, x) { assert Covers(h, k, p, x); }
  }

  lemma LastAtAppend(obs: seq<int>, b: int, x: int)
    requires obs != []
    ensures LastAt(obs + [b], x) == if b <= x then b else LastAt(obs, x)
  {
    assert (obs + [b])[..|obs|] == obs;
  }

  lemma {:induction false} LastAtEnd(obs: seq<int>, x: int)
    requires obs != [] && Ordered(obs) && obs[|obs| - 1] <= x
    ensures LastAt(obs, x) == obs[|obs| - 1]
  {
  }

  /** Reading an unchanged score extends the last row. */
  lemma ExtendRow(h: BonusTable, p: Address, obs: seq<int>, b: int, chain: Chain)
    requires obs != [] && Ordered(obs + [b]) && Encodes(h, p, obs, chain)
    requires chain(p, b) == chain(p, obs[|obs| - 1])
    ensures Encodes(h, p, obs + [b], chain)
  {
    var last := obs[|obs| - 1];
    assert (obs + [b])[|obs| - 1] == last && (obs + [b])[|obs|] == b && (obs + [b])[0] == obs[0];
    assert Ordered(obs) by { assert forall i | 0 <= i < |obs| :: (obs + [b])[i] == obs[i]; }
    forall x ensures chain(p, LastAt(obs + [b], x)) == chain(p, LastAt(obs, x)) {
      LastAtAppend(obs, b, x);
      if b <= x { LastAtEnd(obs, x); }
    }
  }

  function ChangedRows(h: BonusTable, p: Address, b: int, score: int): BonusTable {
    CloseOpen(h, p, b - 1)[BonusKey(p, b) := BonusRow(None, score)]
  }

  /** The changed rows cover a block below `b` as before and any later one by the new row. */
  lemma ChangedCovers(h: BonusTable, p: Address, first: int, last: int, b: int, score: int)
    requires Inside(h, p, first, last) && last < b
    ensures var g := ChangedRows(h, p, b, score);
      && (forall k, x :: Covers(g, k, p, x) <==> if b <= x then k == BonusKey(p, b) else Covers(h, k, p, x))
      && (forall k | k in h && k.node == p :: k in g && g[k].score == h[k].score)
      && BonusKey(p, b) in g && g[BonusKey(p, b)].score == score
  {
  }

  lemma ChangedCoverage(h: BonusTable, p: Address, first: int, last: int, b: int, score: int)
    requires Inside(h, p, first, last) && first <= last < b && CoveredFrom(h, p, first) && CoveredOnce(h, p)
    ensures var g := ChangedRows(h, p, b, score);
      Inside(g, p, first, b) && CoveredFrom(g, p, first) && CoveredOnce(g, p)
  {
    var g := ChangedRows(h, p, b, score);
    assert Inside(g, p, first, b);
    ChangedCovers(h, p, first, last, b, score);
    hide ChangedRows, Covers, Inside;
    forall x | first <= x ensures Covered(g, p, x) {
      if b <= x {
        assert Covers(g, BonusKey(p, b), p, x);
      } else {
        assert Covered(h, p, x);
        var k :| Covers(h, k, p, x);
        assert Covers(g, k, p, x);
      }
    }
  }

  lemma ChangedScores(h: BonusTable, p: Address, obs: seq<int>, b: int, chain: Chain)
    requires obs != [] && Inside(h, p, obs[0], obs[|obs| - 1]) && obs[|obs| - 1] < b && Scored(h, p, obs, chain)
    ensures Scored(ChangedRows(h, p, b, chain(p, b)), p, obs + [b], chain)
  {
    var g := ChangedRows(h, p, b, chain(p, b));
    ChangedCovers(h, p, obs[0], obs[|obs| - 1], b, chain(p, b));
    forall k, x | Covers(g, k, p, x) ensures g[k].score == chain(p, LastAt(obs + [b], x)) {
      LastAtAppend(obs, b, x);
      assert x < b ==> Covers(h, k, p, x);
    }
  }

  lemma ChangedSteps(h: BonusTable, p: Address, first: int, last: int, b: int, score: int, o: BonusKey)
    requires Inside(h, p, first, last) && last < b && Stepwise(h, p, first)
    requires Covers(h, o, p, b - 1) && h[o].score != score
    ensures Stepwise(ChangedRows(h, p, b, score), p, first)
  {
    var g := ChangedRows(h, p, b, score);
    forall k | k in g && k.node == p && k.fromBlock != first ensures Differs(g, k) {
      if k == BonusKey(p, b) {
        assert o in g && g[o].toBlock == Some(b - 1);
      } else {
        assert Differs(h, k);
        var l :| l in h && l.node == p && h[l].toBlock == Some(k.fromBlock - 1) && h[l].score != h[k].score;
        assert l in g && g[l] == h[l];
      }
    }
  }

  /** A changed score closes the open row the block before and opens the next. */
  lemma ChangeRow(h: BonusTable, p: Address, obs: seq<int>, b: int, chain: Chain)
    requires obs != [] && Ordered(obs + [b]) && obs[|obs| - 1] < b && Encodes(h, p, obs, chain)
    requires chain(p, b) != chain(p, obs[|obs| - 1])
    ensures BonusKey(p, b) !in h
    ensures Encodes(ChangedRows(h, p, b, chain(p, b)), p, obs + [b], chain)
  {
    hide Stepwise, CoveredOnce, ChangedRows;
    var last, first := obs[|obs| - 1], obs[0];
    assert (obs + [b])[|obs| - 1] == last && (obs + [b])[|obs|] == b && (obs + [b])[0] == first;
    assert Ordered(obs) by { assert forall i | 0 <= i < |obs| :: (obs + [b])[i] == obs[i]; }
    assert first <= last && Covered(h, p, b - 1);
    var o :| Covers(h, o, p, b - 1);
    LastAtEnd(obs, b - 1);
    ChangedCoverage(h, p, first, last, b, chain(p, b));
    ChangedScores(h, p, obs, b, chain);
    ChangedSteps(h, p, first, last, b, chain(p, b), o);
  }

  lemma ProcessTracks(s: Scores, p: Address, obs: seq<int>, b: int, chain: Chain)
    requires obs != [] && Ordered(obs + [b]) && Tracks(s, p, obs, chain)
    ensures ProcessPool(s, p, b, chain(p, b)).Some?
    ensures Tracks(ProcessPool(s, p, b, chain(p, b)).value, p, obs + [b], chain)
  {
    var last := obs[|obs| - 1];
    assert (obs + [b])[|obs| - 1] == last && (obs + [b])[|obs|] == b;
    if s.cache[p] == chain(p, b) {
      ExtendRow(s.history, p, obs, b, chain);
    } else {
      assert last != b;
      ChangeRow(s.history, p, obs, b, chain);
    }
  }
}
