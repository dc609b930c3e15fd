/** The whole of a committed block processed again: which tables change, and when it commits at all. */
module BlockAgain {
  import opened Common
  import BonusRuns
  import BonusScores
  import Names
  import SecondPass
  import StakeAccounts
  import StakeHistory
  import StakeRuns
  import StakeTables
  import Validators

  /** `available_event`, all key: node and block. */
  type Availability = set<(Address, int)>

  function InsertAvailable(t: Availability, nodes: seq<Address>, b: int): Option<Availability> {
    if nodes == [] then Some(t)
    else
      var u :- InsertAvailable(t, nodes[..|nodes| - 1], b);
      var k := (nodes[|nodes| - 1], b);
      if k in u then None else Some(u + {k})
  }

  /** What a block gives its writers. */
  datatype Block = Block(
    events: seq<StakeTables.Event>,
    names: seq<Names.Event>,
    available: seq<Address>,
    validators: Validators.Block,
    scores: BonusScores.Block)

  /** The stake tables are those of the events booked so far. */
  datatype Store = Store(
    booked: seq<StakeTables.Event>,
    stake: StakeTables.Tables,
    names: Names.Table,
    available: Availability,
    validators: Validators.Table,
    observer: Validators.Observer,
    scores: BonusScores.Scores)

  /** One pass over a block; nothing when one of its statements violates a key. */
  function Pass(y: Store, block: Block, chain: BonusScores.Chain): Option<Store> {
    var scores :- BonusScores.ProcessBlock(y.scores, block.scores, chain);
    var (validators, observer) :- Validators.Update(y.validators, y.observer, block.validators);
    var available :- InsertAvailable(y.available, block.available, block.scores.number);
    var stake :- StakeTables.Run(y.booked + block.events);
    var names := Names.ApplyAll(y.names, block.names);
    Some(Store(y.booked + block.events, stake, names, available, validators, observer, scores))
  }

  /** The nodes of the block are known the second time. */
  function Again(block: Block): Block {
    block.(scores := block.scores.(newNodes := []))
  }

  lemma {:induction false} InsertedStay(t: Availability, nodes: seq<Address>, b: int, u: Availability)
    requires InsertAvailable(t, nodes, b) == Some(u)
    ensures t <= u && forall i | 0 <= i < |nodes| :: (nodes[i], b) in u
  {
    if nodes != [] {
      InsertedStay(t, nodes[..|nodes| - 1], b, InsertAvailable(t, nodes[..|nodes| - 1], b).value);
    }
  }

  lemma {:induction false} AvailableAgain(t: Availability, nodes: seq<Address>, b: int)
    requires nodes != [] && forall i | 0 <= i < |nodes| :: (nodes[i], b) in t
    ensures InsertAvailable(t, nodes, b).None?
  {
    if |nodes| > 1 {
      AvailableAgain(t, nodes[..|nodes| - 1], b);
    } else {
      assert nodes[..|nodes| - 1] == [];
    }
  }

  lemma ValidatorsAgain(t: Validators.Table, o: Validators.Observer, block: Validators.Block)
    requires Validators.Update(t, o, block).Some?
    ensures var (u, p) := Validators.Update(t, o, block).value; Validators.Update(u, p, block) == Some((u, p))
  {
  }

  lemma ScoresAgain(s: BonusScores.Scores, block: BonusScores.Block, chain: BonusScores.Chain)
    requires BonusScores.ProcessBlock(s, block, chain).Some?
    ensures var t := BonusScores.ProcessBlock(s, block, chain).value;
      BonusScores.ProcessBlock(t, block.(newNodes := []), chain) == Some(t)
  {
    var r := BonusScores.RegisterAll(s, block.newNodes, block.number, chain).value;
    var t := BonusScores.ProcessAll(r, block.pools, block.number, chain).value;
    BonusRuns.ProcessedCache(r, block.pools, block.number, chain);
    BonusRuns.ReloadedIdle(t, block.pools, block.number, chain);
    assert BonusScores.RegisterAll(t, [], block.number, chain) == Some(t);
  }

  /**
   * A second pass over a committed block changes no name, validator or bonus row. It commits exactly when the
   * block reports no availability and both passes together change no pool more than twice, and then it leaves
   * the stake tables as they are exactly when all the block's events are inert.
   */
  lemma SecondPassExactly(y: Store, block: Block, z: Store, chain: BonusScores.Chain)
    requires StakeHistory.LogOrdered(y.booked) && SecondPass.OneBlock(y.booked, block.events, block.scores.number)
    requires Pass(y, block, chain) == Some(z)
    ensures var r := Pass(z, Again(block), chain);
      && (r.Some? <==>
            block.available == [] && forall p :: StakeRuns.AtMostTwo(StakeHistory.Changes(z.booked + block.events, p)))
      && (r.Some? ==>
            && r.value == z.(booked := r.value.booked, stake := r.value.stake)
            && (r.value.stake == z.stake <==> SecondPass.AllInert(z.booked, block.events)))
  {
    hide StakeTables.Run, Validators.Update, BonusScores.ProcessBlock, Names.ApplyAll, SecondPass.AllInert;
    var b := block.scores.number;
    SecondPass.CommitsAgain(y.booked, block.events, b);
    SecondPass.UnchangedExactly(y.booked, block.events, b, z.stake);
    ValidatorsAgain(y.validators, y.observer, block.validators);
    ScoresAgain(y.scores, block.scores, chain);
    Names.PrefixThenWhole(y.names, block.names, |block.names|);
    assert block.names[..|block.names|] == block.names;
    InsertedStay(y.available, block.available, b, z.available);
    if block.available != [] { AvailableAgain(z.available, block.available, b); }
  }

  /** One stake of 100 wei: after the second pass the pool has 200. */
  lemma StakeBookedTwice(p: Address, b: int)
    ensures var e := StakeTables.StakeChanged(b, p, p, 100, false);
      && StakeTables.Run([e]).Some? && StakeAccounts.Latest(StakeTables.Run([e]).value.history, p) == 100
      && StakeTables.Run([e, e]).Some? && StakeAccounts.Latest(StakeTables.Run([e, e]).value.history, p) == 200
  {
    var e := StakeTables.StakeChanged(b, p, p, 100, false);
    StakeSums(p, b);
    hide StakeTables.Run, StakeAccounts.Latest;
    StakeRuns.RunFollows([e]);
    StakeRuns.RunFollows([e, e]);
    StakeAccounts.LatestIsSum(StakeTables.Run([e]).value.history, [e], p);
    StakeAccounts.LatestIsSum(StakeTables.Run([e, e]).value.history, [e, e], p);
  }

  lemma StakeSums(p: Address, b: int)
    ensures var e := StakeTables.StakeChanged(b, p, p, 100, false);
      && StakeHistory.Sum(StakeHistory.Changes([e], p)) == 100
      && StakeHistory.Sum(StakeHistory.Changes([e, e], p)) == 200
      && (forall q :: StakeRuns.AtMostTwo(StakeHistory.Changes([e], q)))
      && (forall q :: StakeRuns.AtMostTwo(StakeHistory.Changes([e, e], q)))
  {
    var e, ch := StakeTables.StakeChanged(b, p, p, 100, false), StakeHistory.Change(b, 100);
    StakeAccounts.SumShort(ch, ch);
    forall q
      ensures StakeRuns.AtMostTwo(StakeHistory.Changes([e], q)) && StakeRuns.AtMostTwo(StakeHistory.Changes([e, e], q))
    {
      StakesPlaced(p, b, q);
      FewChanges(ch);
    }
    StakesPlaced(p, b, p);
    hide StakeHistory.Changes, StakeHistory.Sum;
  }

  lemma StakesPlaced(p: Address, b: int, q: Address)
    ensures var e, ch := StakeTables.StakeChanged(b, p, p, 100, false), StakeHistory.Change(b, 100);
      && StakeHistory.Changes([e], q) == (if q == p then [ch] else [])
      && StakeHistory.Changes([e, e], q) == (if q == p then [ch, ch] else [])
  {
    var e := StakeTables.StakeChanged(b, p, p, 100, false);
    assert [] + [e] == [e] && [e] + [e] == [e, e];
    StakeRuns.OneMore([], e, q);
    StakeRuns.OneMore([e], e, q);
  }

  lemma FewChanges(ch: StakeHistory.Change)
    ensures StakeRuns.AtMostTwo([]) && StakeRuns.AtMostTwo([ch]) && StakeRuns.AtMostTwo([ch, ch])
  {
    forall x ensures StakeHistory.CountAt([], x) <= 2 && StakeHistory.CountAt([ch], x) <= 2
      && StakeHistory.CountAt([ch, ch], x) <= 2
    {
      StakeRuns.Doubled(ch, x);
      StakeRuns.CountOneMore([], ch, x);
      assert [] + [ch] == [ch];
    }
  }
}
