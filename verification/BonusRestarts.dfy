/** `bonus_score_history` over whole runs with aborted attempts and restarts. */
module BonusRestarts {
  import opened Common
  import opened BonusScores
  import BonusRuns

  /**
   * A commit takes the next block. An abort leaves the rows but has read the pools into the cache, and a
   * restart has a fresh cache, both at the block that is committed next. A block is lost when the update of
   * a pool that is no node fails: the failure is logged, the database has given up the transaction and its
   * commit rolls back, yet the loop advances. The `read` pools made it into the cache before.
   */
  datatype Step =
    | Commit(newNodes: seq<Address>, pools: seq<Address>)
    | Lost(newNodes: seq<Address>, pools: seq<Address>, read: seq<Address>)
    | Abort(pools: seq<Address>)
    | Restart(pools: seq<Address>)

  datatype System = System(scores: Scores, next: int)

  function Apply(y: System, step: Step, chain: Chain): Option<System> {
    match step
    case Commit(newNodes, pools) =>
      var s :- ProcessBlock(y.scores, Block(y.next, newNodes, pools), chain);
      Some(System(s, y.next + 1))
    case Lost(_, _, read) =>
      Some(System(y.scores.(cache := y.scores.cache + ReadAll(read, y.next, chain)), y.next + 1))
    case Abort(pools) => Some(y.(scores := y.scores.(cache := y.scores.cache + ReadAll(pools, y.next, chain))))
    case Restart(pools) => Some(y.(scores := y.scores.(cache := ReadAll(pools, y.next, chain))))
  }

  function Run(steps: seq<Step>, first: int, chain: Chain): Option<System> {
    if steps == [] then Some(System(Scores(map[], map[], map[]), first))
    else
      var y :- Run(steps[..|steps| - 1], first, chain);
      Apply(y, steps[|steps| - 1], chain)
  }

  lemma {:induction false} RunSilent(steps: seq<Step>, k: Step, first: int, chain: Chain)
    requires Run(steps, first, chain).Some? && (k.Abort? || k.Restart?)
    ensures var r := Run(steps + [k], first, chain); r.Some? && r.value.next == Run(steps, first, chain).value.next
  {
    hide ReadAll, ProcessBlock;
    assert (steps + [k])[..|steps|] == steps;
  }

  /** An attempt that processes a block and rolls it back advances the cache as `Abort` says. */
  lemma {:induction false} AbortedCache(s: Scores, pools: seq<Address>, b: int, chain: Chain)
    requires ProcessAll(s, pools, b, chain).Some?
    ensures ProcessAll(s, pools, b, chain).value.cache == s.cache + ReadAll(pools, b, chain)
  {
    if pools != [] { AbortedCache(s, pools[..|pools| - 1], b, chain); }
  }

  // ----- the reference: what a run writes for one pool, from its steps and the chain alone -----

  /** The blocks at which rows of the pool begin, the block its cached score is from, the block to come. */
  datatype Memory = Memory(writes: seq<int>, cached: Option<int>, next: int)

  predicate Unmoved(m: Memory, p: Address, chain: Chain) {
    m.cached.Some? && chain(p, m.cached.value) == chain(p, m.next)
  }

  /** Within the block to come, after some nodes were inserted and some pools read. */
  ghost function During(m: Memory, p: Address, nodes: seq<Address>, pools: seq<Address>, chain: Chain): Memory {
    if p in nodes || (p in pools && !Unmoved(m, p, chain)) then Memory(m.writes + [m.next], Some(m.next), m.next)
    else if p in pools then m.(cached := Some(m.next))
    else m
  }

  ghost function Remember(steps: seq<Step>, p: Address, first: int, chain: Chain): Memory {
    if steps == [] then Memory([], None, first)
    else
      var m := Remember(steps[..|steps| - 1], p, first, chain);
      match steps[|steps| - 1]
      case Commit(nodes, pools) => During(m, p, nodes, pools, chain).(next := m.next + 1)
      case Lost(_, _, read) => m.(cached := if p in read then Some(m.next) else m.cached, next := m.next + 1)
      case Abort(pools) => if p in pools then m.(cached := Some(m.next)) else m
      case Restart(pools) => m.(cached := if p in pools then Some(m.next) else None)
  }

  /** A pool that is no node yet may be listed only as long as its score does not move: nothing is written for it. */
  predicate Readable(m: Memory, p: Address, nodes: seq<Address>, chain: Chain) {
    m.writes != [] || p in nodes || Unmoved(m, p, chain)
  }

  ghost predicate AllReadable(before: seq<Step>, nodes: seq<Address>, pools: seq<Address>, first: int, chain: Chain) {
    forall p | p in pools :: Readable(Remember(before, p, first, chain), p, nodes, chain)
  }

  /** A node is inserted once. A block with a pool whose key would fail is lost, any other one commits. */
  ghost predicate Allowed(before: seq<Step>, step: Step, first: int, chain: Chain) {
    match step
    case Commit(nodes, pools) =>
      && (forall i, j | 0 <= i < j < |nodes| :: nodes[i] != nodes[j])
      && (forall p | p in nodes :: Remember(before, p, first, chain).writes == [])
      && AllReadable(before, nodes, pools, first, chain)
    case Lost(nodes, pools, _) => !AllReadable(before, nodes, pools, first, chain)
    case Abort(_) => true
    case Restart(_) => true
  }

  ghost predicate Legal(steps: seq<Step>, first: int, chain: Chain) {
    steps == [] ||
    var before := steps[..|steps| - 1];
    Legal(before, first, chain) && Allowed(before, steps[|steps| - 1], first, chain)
  }

  // ----- the table against the reference -----

  /** The rows tile the blocks from the first write on and carry the score of the last write. */
  ghost predicate RowsKeep(h: BonusTable, p: Address, writes: seq<int>, chain: Chain) {
    if writes == [] then forall k | k in h :: k.node != p
    else
      && Inside(h, p, writes[0], writes[|writes| - 1])
      && CoveredFrom(h, p, writes[0]) && CoveredOnce(h, p)
      && Scored(h, p, writes, chain)
  }

  ghost predicate Keeps(s: Scores, p: Address, m: Memory, chain: Chain) {
    && RowsKeep(s.history, p, m.writes, chain)
    && (p in s.nodeScore <==> m.writes != [])
    && (m.writes != [] ==> s.nodeScore[p] == chain(p, m.writes[|m.writes| - 1]))
    && (p in s.cache <==> m.cached.Some?)
    && (m.cached.Some? ==> s.cache[p] == chain(p, m.cached.value))
    && Ordered(m.writes)
    && (m.writes != [] ==> m.writes[|m.writes| - 1] <= m.next)
    && (m.writes != [] && m.writes[|m.writes| - 1] == m.next ==> m.cached == Some(m.next))
  }

  lemma RowsFrame(g: BonusTable, h: BonusTable, p: Address, writes: seq<int>, chain: Chain)
    requires RowsKeep(g, p, writes, chain)
    requires forall k: BonusKey | k.node == p :: (k in g <==> k in h) && (k in g ==> g[k] == h[k])
    ensures RowsKeep(h, p, writes, chain)
  {
    hide LastAt;
    if writes != [] {
      assert forall k, b :: Covers(g, k, p, b) == Covers(h, k, p, b);
      forall b | writes[0] <= b ensures Covered(h, p, b) {
        assert Covered(g, p, b);
        var k :| Covers(g, k, p, b);
        assert Covers(h, k, p, b);
      }
    }
  }

  lemma KeepsFrame(s: Scores, t: Scores, p: Address, m: Memory, chain: Chain)
    requires Keeps(s, p, m, chain) && SamePool(s, t, p)
    ensures Keeps(t, p, m, chain)
  {
    hide RowsKeep, Ordered;
    RowsFrame(s.history, t.history, p, m.writes, chain);
  }

  lemma RegisterKeeps(s: Scores, p: Address, m: Memory, chain: Chain)
    requires Keeps(s, p, m, chain) && m.writes == []
    ensures Register(s, p, m.next, chain(p, m.next)).Some?
    ensures Keeps(Register(s, p, m.next, chain(p, m.next)).value, p, Memory([m.next], Some(m.next), m.next), chain)
  {
    var k := BonusKey(p, m.next);
    assert k !in s.history;
    var h := Register(s, p, m.next, chain(p, m.next)).value.history;
    assert forall l | l in h && l.node == p :: l == k;
    forall x | m.next <= x ensures Covered(h, p, x) { assert Covers(h, k, p, x); }
  }

  lemma WriteRow(h: BonusTable, p: Address, writes: seq<int>, b: int, chain: Chain)
    requires RowsKeep(h, p, writes, chain) && writes != [] && Ordered(writes) && writes[|writes| - 1] < b
    ensures BonusKey(p, b) !in h
    ensures RowsKeep(ChangedRows(h, p, b, chain(p, b)), p, writes + [b], chain)
    ensures Ordered(writes + [b])
  {
    ChangedCoverage(h, p, writes[0], writes[|writes| - 1], b, chain(p, b));
    ChangedScores(h, p, writes, b, chain);
    hide ChangedRows, CoveredFrom, CoveredOnce, Scored;
  }

  /** Reading a pool writes a row exactly when its score differs from the cached one. */
  lemma ReadKeeps(s: Scores, p: Address, m: Memory, chain: Chain)
    requires Keeps(s, p, m, chain) && (m.writes != [] || Unmoved(m, p, chain))
    ensures ProcessPool(s, p, m.next, chain(p, m.next)).Some?
    ensures Keeps(ProcessPool(s, p, m.next, chain(p, m.next)).value, p, During(m, p, [], [p], chain), chain)
  {
    if !Unmoved(m, p, chain) {
      hide RowsKeep;
      WriteRow(s.history, p, m.writes, m.next, chain);
    }
  }

  // ----- one block -----

  ghost predicate AllKeep(s: Scores, steps: seq<Step>, nodes: seq<Address>, pools: seq<Address>, first: int,
                          chain: Chain) {
    forall p :: Keeps(s, p, During(Remember(steps, p, first, chain), p, nodes, pools, chain), chain)
  }

  lemma RegisterOneKeeps(s: Scores, steps: seq<Step>, nodes: seq<Address>, p: Address, b: int, first: int, chain: Chain)
    requires AllKeep(s, steps, nodes, [], first, chain) && p !in nodes
    requires Remember(steps, p, first, chain).writes == [] && Remember(steps, p, first, chain).next == b
    ensures Register(s, p, b, chain(p, b)).Some?
    ensures AllKeep(Register(s, p, b, chain(p, b)).value, steps, nodes + [p], [], first, chain)
  {
    var m := Remember(steps, p, first, chain);
    assert Keeps(s, p, During(m, p, nodes, [], chain), chain);
    RegisterKeeps(s, p, m, chain);
    var t := Register(s, p, b, chain(p, b)).value;
    assert During(m, p, nodes + [p], [], chain) == Memory([b], Some(b), b);
    assert forall q | q != p :: SamePool(s, t, q);
    hide Keeps, Register, SamePool, Remember;
    forall q ensures Keeps(t, q, During(Remember(steps, q, first, chain), q, nodes + [p], [], chain), chain) {
      if q != p {
        var n := Remember(steps, q, first, chain);
        assert Keeps(s, q, During(n, q, nodes, [], chain), chain);
        KeepsFrame(s, t, q, During(n, q, nodes, [], chain), chain);
      }
    }
  }

  lemma {:induction false} RegisterAllKeeps(s: Scores, steps: seq<Step>, nodes: seq<Address>, b: int, first: int,
                                            chain: Chain)
    requires AllKeep(s, steps, [], [], first, chain)
    requires forall i, j | 0 <= i < j < |nodes| :: nodes[i] != nodes[j]
    requires forall p | p in nodes :: Remember(steps, p, first, chain).writes == []
    requires forall p :: Remember(steps, p, first, chain).next == b
    ensures RegisterAll(s, nodes, b, chain).Some?
    ensures AllKeep(RegisterAll(s, nodes, b, chain).value, steps, nodes, [], first, chain)
  {
    hide AllKeep, Register, Remember;
    if nodes == [] {
      assert nodes == [];
    } else {
      var n := |nodes| - 1;
      var before, p := nodes[..n], nodes[n];
      assert p in nodes && forall q | q in before :: q in nodes;
      RegisterAllKeeps(s, steps, before, b, first, chain);
      RegisterOneKeeps(RegisterAll(s, before, b, chain).value, steps, before, p, b, first, chain);
      assert before + [p] == nodes;
    }
  }

  lemma ReadOneKeeps(s: Scores, steps: seq<Step>, nodes: seq<Address>, pools: seq<Address>, p: Address,
                     b: int, first: int, chain: Chain)
    requires AllKeep(s, steps, nodes, pools, first, chain) && Remember(steps, p, first, chain).next == b
    requires Readable(Remember(steps, p, first, chain), p, nodes, chain)
    ensures ProcessPool(s, p, b, chain(p, b)).Some?
    ensures AllKeep(ProcessPool(s, p, b, chain(p, b)).value, steps, nodes, pools + [p], first, chain)
  {
    var m := Remember(steps, p, first, chain);
    var d := During(m, p, nodes, pools, chain);
    assert Keeps(s, p, d, chain);
    ReadKeeps(s, p, d, chain);
    var t := ProcessPool(s, p, b, chain(p, b)).value;
    assert During(d, p, [], [p], chain) == During(m, p, nodes, pools + [p], chain);
    hide Keeps, ProcessPool, SamePool, Remember;
    forall q ensures Keeps(t, q, During(Remember(steps, q, first, chain), q, nodes, pools + [p], chain), chain) {
      if q != p {
        var n := Remember(steps, q, first, chain);
        assert Keeps(s, q, During(n, q, nodes, pools, chain), chain);
        BonusRuns.ProcessFrame(s, p, b, chain(p, b), q);
        KeepsFrame(s, t, q, During(n, q, nodes, pools, chain), chain);
      }
    }
  }

  lemma {:induction false} ReadAllKeeps(s: Scores, steps: seq<Step>, nodes: seq<Address>, pools: seq<Address>,
                                        b: int, first: int, chain: Chain)
    requires AllKeep(s, steps, nodes, [], first, chain)
    requires forall p :: Remember(steps, p, first, chain).next == b
    requires forall p | p in pools :: Readable(Remember(steps, p, first, chain), p, nodes, chain)
    ensures ProcessAll(s, pools, b, chain).Some?
    ensures AllKeep(ProcessAll(s, pools, b, chain).value, steps, nodes, pools, first, chain)
  {
    hide AllKeep, ProcessPool, Remember, Readable;
    if pools == [] {
      assert pools == [];
    } else {
      var n := |pools| - 1;
      var before, p := pools[..n], pools[n];
      assert p in pools && forall q | q in before :: q in pools;
      ReadAllKeeps(s, steps, nodes, before, b, first, chain);
      ReadOneKeeps(ProcessAll(s, before, b, chain).value, steps, nodes, before, p, b, first, chain);
      assert before + [p] == pools;
    }
  }

  // ----- runs -----

  ghost predicate RunKeeps(y: System, steps: seq<Step>, first: int, chain: Chain) {
    forall p :: var m := Remember(steps, p, first, chain);
      && m.next == y.next && Keeps(y.scores, p, m, chain)
      && (m.writes != [] ==> m.writes[|m.writes| - 1] < m.next)
  }

  lemma CommitKeeps(y: System, steps: seq<Step>, step: Step, first: int, chain: Chain)
    requires Allowed(steps, step, first, chain) && RunKeeps(y, steps, first, chain) && step.Commit?
    ensures Apply(y, step, chain).Some?
    ensures RunKeeps(Apply(y, step, chain).value, steps + [step], first, chain)
  {
    var b := y.next;
    hide RegisterAll, ProcessAll, Remember, Keeps, Readable;
    assert AllKeep(y.scores, steps, [], [], first, chain);
    RegisterAllKeeps(y.scores, steps, step.newNodes, b, first, chain);
    var t := RegisterAll(y.scores, step.newNodes, b, chain).value;
    ReadAllKeeps(t, steps, step.newNodes, step.pools, b, first, chain);
    CommittedKeeps(ProcessAll(t, step.pools, b, chain).value, steps, step, b, first, chain);
  }

  lemma CommittedKeeps(s: Scores, steps: seq<Step>, step: Step, b: int, first: int, chain: Chain)
    requires step.Commit? && AllKeep(s, steps, step.newNodes, step.pools, first, chain)
    requires forall p :: Remember(steps, p, first, chain).next == b
    ensures RunKeeps(System(s, b + 1), steps + [step], first, chain)
  {
    var all := steps + [step];
    assert all[..|all| - 1] == steps && all[|all| - 1] == step;
    hide Keeps;
    forall p ensures var m := Remember(all, p, first, chain);
      m.next == b + 1 && Keeps(s, p, m, chain) && (m.writes != [] ==> m.writes[|m.writes| - 1] < m.next)
    {
      var d := During(Remember(steps, p, first, chain), p, step.newNodes, step.pools, chain);
      assert Keeps(s, p, d, chain);
      NextBlock(s, p, d, chain);
    }
  }

  lemma NextBlock(s: Scores, p: Address, m: Memory, chain: Chain)
    requires Keeps(s, p, m, chain)
    ensures Keeps(s, p, m.(next := m.next + 1), chain)
    ensures m.writes != [] ==> m.writes[|m.writes| - 1] <= m.next
  {
    hide RowsKeep;
  }

  lemma SilentKeeps(y: System, steps: seq<Step>, step: Step, first: int, chain: Chain)
    requires RunKeeps(y, steps, first, chain) && !step.Commit?
    ensures Apply(y, step, chain).Some?
    ensures RunKeeps(Apply(y, step, chain).value, steps + [step], first, chain)
  {
    var all := steps + [step];
    assert all[..|all| - 1] == steps && all[|all| - 1] == step;
    hide RowsKeep;
    var t := Apply(y, step, chain).value;
    forall p ensures var m := Remember(all, p, first, chain);
      m.next == t.next && Keeps(t.scores, p, m, chain) && (m.writes != [] ==> m.writes[|m.writes| - 1] < m.next)
    {
      var m := Remember(steps, p, first, chain);
      assert m.next == y.next && Keeps(y.scores, p, m, chain);
    }
  }

  /** Every legal run commits, whatever aborts and restarts it holds, and writes what the reference says. */
  lemma {:induction false} RunRemembers(steps: seq<Step>, first: int, chain: Chain)
    requires Legal(steps, first, chain)
    ensures Run(steps, first, chain).Some?
    ensures RunKeeps(Run(steps, first, chain).value, steps, first, chain)
  {
    hide Apply, RunKeeps;
    if steps == [] {
      NothingWritten(first, chain);
    } else {
      var n := |steps| - 1;
      var before, step := steps[..n], steps[n];
      assert before + [step] == steps;
      RunRemembers(before, first, chain);
      var y := Run(before, first, chain).value;
      if step.Commit? {
        CommitKeeps(y, before, step, first, chain);
      } else {
        SilentKeeps(y, before, step, first, chain);
      }
    }
  }

  lemma NothingWritten(first: int, chain: Chain)
    ensures RunKeeps(System(Scores(map[], map[], map[]), first), [], first, chain)
  {
  }

  /**
   * From a pool's first row on, exactly one row covers each block. Its score is right exactly when the
   * chain's score is that of the last block at which a row was written: a move that an abort or a restart
   * read first is never written, until the score moves again or moves back.
   */
  lemma RightExactly(steps: seq<Step>, first: int, chain: Chain, p: Address, b: int)
    requires Legal(steps, first, chain)
    requires var w := Remember(steps, p, first, chain).writes; w != [] && w[0] <= b
    ensures Run(steps, first, chain).Some?
    ensures var h, w := Run(steps, first, chain).value.scores.history, Remember(steps, p, first, chain).writes;
      && (exists k :: Covers(h, k, p, b))
      && (forall k, l | Covers(h, k, p, b) && Covers(h, l, p, b) :: k == l)
      && (BonusRuns.RightAt(h, p, b, chain) <==> chain(p, b) == chain(p, LastAt(w, b)))
  {
    RunRemembers(steps, first, chain);
    var y, m := Run(steps, first, chain).value, Remember(steps, p, first, chain);
    assert Keeps(y.scores, p, m, chain);
    assert Covered(y.scores.history, p, b);
    var k :| Covers(y.scores.history, k, p, b);
  }

  /**
   * A pool's score is 1 at block 1 and 2 from block 2 on. Read first by a restart, or by an attempt that
   * aborts, the move is not written when block 2 commits: its row says 1.
   */
  lemma SilentMoveLeavesWrongRow(p: Address, restarts: bool)
    ensures var chain := (q: Address, b: int) => if b < 2 then 1 else 2;
      var silent := if restarts then Restart([p]) else Abort([p]);
      var steps := [Commit([p], [p]), silent, Commit([], [p])];
      && Legal(steps, 1, chain) && Run(steps, 1, chain).Some?
      && !BonusRuns.RightAt(Run(steps, 1, chain).value.scores.history, p, 2, chain)
  {
    var chain: Chain, silent := (q, b) => if b < 2 then 1 else 2, if restarts then Restart([p]) else Abort([p]);
    var steps := [Commit([p], [p]), silent, Commit([], [p])];
    SilentMoveSteps(p, silent, chain);
    hide Legal, Remember;
    RightExactly(steps, 1, chain, p, 2);
  }

  lemma SilentMoveSteps(p: Address, silent: Step, chain: Chain)
    requires silent == Restart([p]) || silent == Abort([p])
    ensures var steps := [Commit([p], [p]), silent, Commit([], [p])];
      Legal(steps, 1, chain) && (chain(p, 2) != chain(p, 1) ==> Remember(steps, p, 1, chain).writes == [1])
  {
    var one, last := [Commit([p], [p])], Commit([], [p]);
    var two := one + [silent];
    var steps := [Commit([p], [p]), silent, last];
    assert one[..0] == [] && two[..1] == one && steps[..2] == two && steps[2] == last && two[1] == silent;
    assert Remember([], p, 1, chain) == Memory([], None, 1);
    assert Remember(one, p, 1, chain) == Memory([1], Some(1), 2);
    assert Remember(two, p, 1, chain) == Memory([1], Some(2), 2);
    assert AllReadable([], [p], [p], 1, chain) && AllReadable(two, [], [p], 1, chain);
    assert Legal([], 1, chain) && Legal(one, 1, chain) && Legal(two, 1, chain);
  }

  /**
   * The attempt that was to insert the node aborts at block 1, and the retry knows the node and skips it. When
   * the score moves at block 2, the block cannot commit: it is lost.
   */
  lemma NodelessPoolLosesBlock(p: Address)
    ensures var chain := (q: Address, b: int) => if b < 2 then 1 else 2;
      var steps := [Abort([p]), Commit([], [p])];
      && Legal(steps + [Lost([], [p], [])], 1, chain)
      && !Legal(steps + [Commit([], [p])], 1, chain)
  {
    var chain: Chain := (q, b) => if b < 2 then 1 else 2;
    var one, two := [Abort([p])], [Abort([p]), Commit([], [p])];
    var lost, committed := two + [Lost([], [p], [])], two + [Commit([], [p])];
    assert one[..0] == [] && two[..1] == one && lost[..2] == two && committed[..2] == two;
    assert Legal([], 1, chain) && Legal(one, 1, chain);
    assert Remember([], p, 1, chain) == Memory([], None, 1);
    assert Remember(one, p, 1, chain) == Memory([], Some(1), 1);
    assert Remember(two, p, 1, chain) == Memory([], Some(1), 2);
    assert AllReadable(one, [], [p], 1, chain);
    assert !Readable(Remember(two, p, 1, chain), p, [], chain) && p in [p];
    assert Legal(two, 1, chain) && !AllReadable(two, [], [p], 1, chain);
    assert Allowed(two, Lost([], [p], []), 1, chain) && !Allowed(two, Commit([], [p]), 1, chain);
    assert lost == [Abort([p]), Commit([], [p]), Lost([], [p], [])] && lost[2] == Lost([], [p], []);
    assert committed[2] == Commit([], [p]);
  }

  // ----- rollback -----

  lemma {:induction false} LegalPrefix(steps: seq<Step>, m: nat, first: int, chain: Chain)
    requires m <= |steps| && Legal(steps, first, chain)
    ensures Legal(steps[..m], first, chain)
    decreases |steps|
  {
    if m == |steps| {
      assert steps[..m] == steps;
    } else {
      LegalPrefix(steps[..|steps| - 1], m, first, chain);
      assert steps[..|steps| - 1][..m] == steps[..m];
    }
  }

  lemma {:induction false} ExtendsRun(steps: seq<Step>, m: nat, first: int, chain: Chain)
    requires m <= |steps| && Run(steps, first, chain).Some?
    ensures Run(steps[..m], first, chain).Some?
    ensures var y, z := Run(steps[..m], first, chain).value, Run(steps, first, chain).value;
      y.next <= z.next && BonusRuns.Extends(y.scores.history, z.scores.history, y.next)
    decreases |steps|
  {
    hide ProcessBlock;
    if m == |steps| {
      assert steps[..m] == steps;
    } else {
      var before, last := steps[..|steps| - 1], steps[|steps| - 1];
      assert before[..m] == steps[..m];
      ExtendsRun(before, m, first, chain);
      var y, z := Run(steps[..m], first, chain).value, Run(before, first, chain).value;
      if last.Commit? {
        var block := Block(z.next, last.newNodes, last.pools);
        BonusRuns.ExtendsBlock(y.scores.history, z.scores, block, chain, y.next);
      }
    }
  }

  lemma {:induction false} WritesFrom(steps: seq<Step>, p: Address, first: int, chain: Chain)
    ensures var m := Remember(steps, p, first, chain);
      first <= m.next && forall i | 0 <= i < |m.writes| :: first <= m.writes[i]
  {
    if steps != [] { WritesFrom(steps[..|steps| - 1], p, first, chain); }
  }

  /** The rows of a run begin at its blocks and end before its last one. */
  lemma RowsWithin(steps: seq<Step>, first: int, chain: Chain, y: System)
    requires Legal(steps, first, chain) && Run(steps, first, chain) == Some(y)
    ensures var h := y.scores.history;
      forall k | k in h :: first <= k.fromBlock < y.next && (h[k].toBlock.Some? ==> h[k].toBlock.value < y.next - 1)
  {
    RunRemembers(steps, first, chain);
    var h := y.scores.history;
    forall k | k in h
      ensures first <= k.fromBlock < y.next && (h[k].toBlock.Some? ==> h[k].toBlock.value < y.next - 1)
    {
      var m := Remember(steps, k.node, first, chain);
      assert Keeps(y.scores, k.node, m, chain);
      WritesFrom(steps, k.node, first, chain);
    }
  }

  /** The two statements for the block after the first `m` steps give their rows back, the open ones closed. */
  lemma RunDeleted(steps: seq<Step>, m: nat, first: int, chain: Chain, before: System, after: System)
    requires m <= |steps| && Legal(steps, first, chain)
    requires Run(steps[..m], first, chain) == Some(before) && Run(steps, first, chain) == Some(after)
    ensures BonusRuns.DeleteFrom(after.scores.history, before.next)
         == BonusRuns.ClosedAt(before.scores.history, before.next - 1)
  {
    hide Run, Legal;
    ExtendsRun(steps, m, first, chain);
    LegalPrefix(steps, m, first, chain);
    RowsWithin(steps[..m], first, chain, before);
    BonusRuns.RollbackCloses(before.scores.history, after.scores.history, before.next);
  }
}
