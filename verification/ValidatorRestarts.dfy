/** `pending_validator_state_event` over whole runs with aborted attempts and restarts. */
module ValidatorRestarts {
  import opened Common
  import opened Validators
  import opened ValidatorRuns

  /** How far updateValidators came before its block aborted; the epoch is the first field it sets. */
  datatype Stage = EpochSet | PendingSet | AllSet

  /** An abort leaves the rows but not the observer's fields. */
  datatype Step =
    | Commit(block: Block)
    | Abort(block: Block, stage: Stage)
    | Restart(current: seq<Address>, pending: seq<Address>)

  function Advanced(o: Observer, block: Block, stage: Stage): Observer {
    if Skips(o, block) then o
    else
      match stage
      case EpochSet => o.(epoch := block.epoch)
      case PendingSet => Observer(o.current, block.pending, block.round, block.epoch)
      case AllSet => Observer(block.current, block.pending, block.round, block.epoch)
  }

  datatype Store = Store(table: Table, observer: Observer)

  function Apply(y: Store, step: Step): Option<Store> {
    match step
    case Commit(block) =>
      var (t, o) :- Update(y.table, y.observer, block);
      Some(Store(t, o))
    case Abort(block, stage) => Some(y.(observer := Advanced(y.observer, block, stage)))
    case Restart(current, pending) => Some(y.(observer := Restarted(current, pending)))
  }

  function RunAll(steps: seq<Step>): Option<Store> {
    if steps == [] then Some(Store(map[], START.observer))
    else
      var y :- RunAll(steps[..|steps| - 1]);
      Apply(y, steps[|steps| - 1])
  }

  // ----- the reference: which rows are open, from the steps alone -----

  /** What the observer's fields hold after an abort that came this far. */
  ghost function Aborted(o: Observer, block: Block, stage: Stage): Observer {
    if o.round == block.round && o.epoch == block.epoch && o.pending == block.pending then o
    else
      Observer(if stage == AllSet then block.current else o.current,
               if stage == EpochSet then o.pending else block.pending,
               if stage == EpochSet then o.round else block.round, block.epoch)
  }

  ghost function Remember(steps: seq<Step>): Memory {
    if steps == [] then Memory(START.observer, {}, {})
    else
      var m := Remember(steps[..|steps| - 1]);
      match steps[|steps| - 1]
      case Commit(block) => Committed(m, block)
      case Abort(block, stage) => m.(observer := Aborted(m.observer, block, stage))
      case Restart(current, pending) => m.(observer := Observer(current, pending, 0, 0))
  }

  /** The number of the last committed block, if there is one. */
  ghost function LastNumber(steps: seq<Step>): Option<int> {
    if steps == [] then None
    else if steps[|steps| - 1].Commit? then Some(steps[|steps| - 1].block.number)
    else LastNumber(steps[..|steps| - 1])
  }

  /** Numbers of committed blocks increase, and a restarted observer lists the open rows. */
  ghost predicate Permitted(before: seq<Step>, step: Step) {
    match step
    case Commit(block) => LastNumber(before).Some? ==> LastNumber(before).value < block.number
    case Abort(_, _) => true
    case Restart(current, pending) =>
      Listed(current) == Nodes(Remember(before).current) && Listed(pending) == Nodes(Remember(before).pending)
  }

  ghost predicate Lawful(steps: seq<Step>) {
    steps == [] ||
    var before := steps[..|steps| - 1];
    Lawful(before) && Permitted(before, steps[|steps| - 1])
  }

  // ----- the table against the reference -----

  /** The rows that cover the block of a commit are those that were open after it, whatever came since. */
  ghost predicate NamesAt(t: Table, steps: seq<Step>, i: nat)
    requires i < |steps|
  {
    steps[i].Commit? ==>
      var m, b := Remember(steps[..i + 1]), steps[i].block.number;
      CoveredBy(t, Pending, b, m.pending) && CoveredBy(t, Current, b, m.current)
  }

  ghost predicate Keeps(y: Store, steps: seq<Step>) {
    var m := Remember(steps);
    && y.observer == m.observer
    && OpenAre(y.table, Pending, m.pending) && OpenAre(y.table, Current, m.current)
    && (if LastNumber(steps).None? then y.table == map[] else PastAll(y.table, LastNumber(steps).value))
  }

  ghost predicate AllNamed(t: Table, steps: seq<Step>) {
    forall i | 0 <= i < |steps| :: NamesAt(t, steps, i)
  }

  /** The row was entered at a committed block, in the key generation round of that block. */
  ghost predicate EnteredBy(k: Key, steps: seq<Step>) {
    exists i :: 0 <= i < |steps| && steps[i].Commit?
      && steps[i].block.number == k.enter && steps[i].block.round == k.round
  }

  ghost predicate AllEntered(t: Table, steps: seq<Step>) {
    forall k | k in t :: EnteredBy(k, steps)
  }

  lemma EnteredNext(t: Table, u: Table, steps: seq<Step>, step: Step)
    requires AllEntered(t, steps)
    requires forall k | k in u && k !in t ::
      step.Commit? && k.enter == step.block.number && k.round == step.block.round
    ensures AllEntered(u, steps + [step])
  {
    var all := steps + [step];
    forall k | k in u ensures EnteredBy(k, all) {
      if k in t {
        var i :| 0 <= i < |steps| && steps[i].Commit?
              && steps[i].block.number == k.enter && steps[i].block.round == k.round;
        assert all[i] == steps[i];
      } else {
        assert all[|steps|] == step;
      }
    }
  }

  lemma {:induction false} RowsEntered(steps: seq<Step>)
    requires RunAll(steps).Some?
    ensures AllEntered(RunAll(steps).value.table, steps)
  {
    hide AllEntered, Update;
    if steps == [] {
      NothingEntered();
    } else {
      var before, step := steps[..|steps| - 1], steps[|steps| - 1];
      assert before + [step] == steps;
      RowsEntered(before);
      var y := RunAll(before).value;
      if step.Commit? { UpdateAdds(y.table, y.observer, step.block); }
      EnteredNext(y.table, RunAll(steps).value.table, before, step);
    }
  }

  lemma NothingEntered()
    ensures AllEntered(map[], [])
  {
  }

  // ----- runs -----

  lemma {:induction false} NumbersBelow(steps: seq<Step>, i: nat)
    requires Lawful(steps) && i < |steps| && steps[i].Commit?
    ensures LastNumber(steps).Some? && steps[i].block.number <= LastNumber(steps).value
  {
    var n := |steps| - 1;
    if i < n { NumbersBelow(steps[..n], i); }
  }

  lemma StillNamed(t: Table, u: Table, steps: seq<Step>, all: seq<Step>, i: nat, b: int)
    requires i < |steps| <= |all| && all[..|steps|] == steps && NamesAt(t, steps, i)
    requires steps[i].Commit? ==> steps[i].block.number < b
    requires SameBefore(t, u, Pending, b) && SameBefore(t, u, Current, b)
    ensures NamesAt(u, all, i)
  {
    assert all[..i + 1] == steps[..i + 1];
    hide Remember;
  }

  lemma CommitKeeps(y: Store, steps: seq<Step>, block: Block)
    requires Lawful(steps + [Commit(block)]) && Keeps(y, steps) && AllNamed(y.table, steps)
    ensures Apply(y, Commit(block)).Some?
    ensures var z := Apply(y, Commit(block)).value;
      Keeps(z, steps + [Commit(block)]) && AllNamed(z.table, steps + [Commit(block)])
  {
    var all := steps + [Commit(block)];
    assert all[..|all| - 1] == steps;
    hide Update, OpenAre, Past, SameBefore, CoveredBy;
    var m, last := Remember(steps), if LastNumber(steps).None? then block.number - 1 else LastNumber(steps).value;
    if LastNumber(steps).None? { NothingPast(last); }
    UpdateKeeps(y.table, m, block, last);
    var u := Update(y.table, m.observer, block).value.0;
    forall i | 0 <= i < |all| ensures NamesAt(u, all, i) {
      if i < |steps| {
        assert NamesAt(y.table, steps, i);
        if steps[i].Commit? { NumbersBelow(steps, i); }
        StillNamed(y.table, u, steps, all, i, block.number);
      } else {
        assert all[..i + 1] == all;
      }
    }
  }

  lemma SilentKeeps(y: Store, steps: seq<Step>, step: Step)
    requires Keeps(y, steps) && AllNamed(y.table, steps) && !step.Commit?
    ensures Apply(y, step).Some?
    ensures Keeps(Apply(y, step).value, steps + [step]) && AllNamed(Apply(y, step).value.table, steps + [step])
  {
    var all := steps + [step];
    assert all[..|all| - 1] == steps;
    hide CoveredBy, OpenAre, PastAll;
    forall i | 0 <= i < |all| ensures NamesAt(y.table, all, i) {
      if i < |steps| { assert NamesAt(y.table, steps, i) && all[..i + 1] == steps[..i + 1]; }
    }
  }

  /**
   * Every lawful run commits; the rows are those of the reference at every committed block, and each was
   * entered at one and in its key generation round.
   */
  lemma {:induction false} RunRemembers(steps: seq<Step>)
    requires Lawful(steps)
    ensures RunAll(steps).Some?
    ensures Keeps(RunAll(steps).value, steps) && AllNamed(RunAll(steps).value.table, steps)
    ensures AllEntered(RunAll(steps).value.table, steps)
  {
    hide Apply, Keeps, AllNamed, AllEntered;
    if steps == [] {
      NothingRecorded();
    } else {
      var before, step := steps[..|steps| - 1], steps[|steps| - 1];
      assert before + [step] == steps;
      RunRemembers(before);
      var y := RunAll(before).value;
      if step.Commit? {
        CommitKeeps(y, before, step.block);
      } else {
        SilentKeeps(y, before, step);
      }
    }
    RowsEntered(steps);
  }

  lemma NothingRecorded()
    ensures Keeps(Store(map[], START.observer), []) && AllNamed(map[], [])
  {
  }

  /** At block `b` the table names exactly the listed nodes. */
  ghost predicate Records(t: Table, s: State, b: int, nodes: seq<Address>) {
    forall n :: InState(t, s, n, b) <==> n in nodes
  }

  /**
   * Whatever aborts and restarts the run holds, a committed block's pending validators are recorded exactly
   * when they are the nodes the reference has open then, and so are its current ones.
   */
  lemma RecordedExactly(steps: seq<Step>, i: nat)
    requires Lawful(steps) && i < |steps| && steps[i].Commit?
    ensures RunAll(steps).Some?
    ensures var t, block, m := RunAll(steps).value.table, steps[i].block, Remember(steps[..i + 1]);
      && (Records(t, Pending, block.number, block.pending) <==> Nodes(m.pending) == Listed(block.pending))
      && (Records(t, Current, block.number, block.current) <==> Nodes(m.current) == Listed(block.current))
  {
    hide InState;
    RunRemembers(steps);
    var t, block, m := RunAll(steps).value.table, steps[i].block, Remember(steps[..i + 1]);
    assert NamesAt(t, steps, i);
    CoveredNodes(t, Pending, block.number, m.pending);
    CoveredNodes(t, Current, block.number, m.current);
    hide Nodes;
    if Records(t, Pending, block.number, block.pending) {
      assert forall n :: n in Nodes(m.pending) <==> n in Listed(block.pending);
    }
    if Records(t, Current, block.number, block.current) {
      assert forall n :: n in Nodes(m.current) <==> n in Listed(block.current);
    }
  }

  /** A restart heals the pending rows: it lists the stale ones too, and the next block closes them. */
  lemma RestartHeals(steps: seq<Step>, block: Block)
    requires steps != [] && steps[|steps| - 1].Restart? && Lawful(steps)
    ensures Nodes(Remember(steps + [Commit(block)]).pending) == Listed(block.pending)
  {
    var all, m := steps + [Commit(block)], Remember(steps);
    assert all[..|steps|] == steps;
    assert Nodes(m.pending) == Listed(m.observer.pending);
    SwitchedAll(m.pending, Pending, m.observer.pending, block.pending, block.number, block.round);
    hide Nodes, Switched;
  }

  // ----- inputs that fail -----

  /** An abort while the current rows were written: the retry skips, so the current validator is never recorded. */
  lemma AbortLosesCurrent(n: Address)
    ensures var block := Block(1, 1, 1, [], [n]);
      var steps := [Abort(block, PendingSet), Commit(block)];
      Lawful(steps) && RunAll(steps).Some? && !InState(RunAll(steps).value.table, Current, n, 1)
  {
    var block := Block(1, 1, 1, [], [n]);
    var steps, one := [Abort(block, PendingSet), Commit(block)], [Abort(block, PendingSet)];
    assert steps[..1] == one && one[..0] == [] && steps[..2] == steps;
    assert LastNumber([]).None? && LastNumber(one).None? && Lawful([]) && Lawful(one);
    assert Remember(one) == Memory(Observer([], [], 1, 1), {}, {});
    assert Remember(steps) == Remember(one);
    hide InState;
    RunRemembers(steps);
    assert NamesAt(RunAll(steps).value.table, steps, 1);
  }

  /** Three blocks with one pending validator each; block 2 aborts once, and the row of block 1 is never closed. */
  lemma StaleRowStays(a: Address, b: Address, c: Address)
    requires a != b && b != c && c != a
    ensures var block1, block2 := Block(1, 1, 1, [a], []), Block(2, 1, 2, [b], []);
      var block3 := Block(3, 1, 3, [c], []);
      var steps := [Commit(block1), Abort(block2, AllSet), Commit(block2), Commit(block3)];
      Lawful(steps) && RunAll(steps).Some? && InState(RunAll(steps).value.table, Pending, a, 3)
  {
    var block1, block2, block3 := Block(1, 1, 1, [a], []), Block(2, 1, 2, [b], []), Block(3, 1, 3, [c], []);
    var one, two := [Commit(block1)], [Commit(block1), Abort(block2, AllSet)];
    var three, four := two + [Commit(block2)], two + [Commit(block2), Commit(block3)];
    assert one[..0] == [] && two[..1] == one && three[..2] == two && four[..3] == three && four[..4] == four;
    assert four == [Commit(block1), Abort(block2, AllSet), Commit(block2), Commit(block3)];
    assert LastNumber([]).None? && LastNumber(one) == Some(1) == LastNumber(two) && LastNumber(three) == Some(2);
    assert Lawful([]) && Lawful(one) && Lawful(two) && Lawful(three);
    assert Remember([]) == Memory(START.observer, {}, {});
    assert Remember(one).pending == {Key(Pending, a, 1, 1)} && Remember(one).observer == Observer([], [a], 1, 1);
    assert Remember(two) == Remember(one).(observer := Observer([], [b], 2, 1));
    assert Remember(three) == Remember(two);
    assert Key(Pending, a, 1, 1) in Remember(four).pending;
    hide InState;
    RunRemembers(four);
    assert NamesAt(RunAll(four).value.table, four, 3);
  }

  // ----- rollback -----

  lemma {:induction false} LawfulPrefix(steps: seq<Step>, m: nat)
    requires m <= |steps| && Lawful(steps)
    ensures Lawful(steps[..m])
    decreases |steps|
  {
    if m == |steps| {
      assert steps[..m] == steps;
    } else {
      LawfulPrefix(steps[..|steps| - 1], m);
      assert steps[..|steps| - 1][..m] == steps[..m];
    }
  }

  lemma {:induction false} ExtendsAll(steps: seq<Step>, m: nat, b: int)
    requires m <= |steps| && RunAll(steps).Some?
    requires forall i | m <= i < |steps| && steps[i].Commit? :: b <= steps[i].block.number
    ensures RunAll(steps[..m]).Some? && Extends(RunAll(steps[..m]).value.table, RunAll(steps).value.table, b)
    decreases |steps|
  {
    hide Update;
    if m == |steps| {
      assert steps[..m] == steps;
    } else {
      var before, step := steps[..|steps| - 1], steps[|steps| - 1];
      assert before[..m] == steps[..m];
      ExtendsAll(before, m, b);
      var y := RunAll(before).value;
      if step.Commit? { ExtendsUpdate(RunAll(steps[..m]).value.table, y.table, y.observer, step.block, b); }
    }
  }

  /** The two statements for a block after the first `m` steps give exactly their rows back. */
  lemma RunDeleted(steps: seq<Step>, m: nat, b: int, before: Store, after: Store)
    requires m <= |steps| && Lawful(steps)
    requires RunAll(steps[..m]) == Some(before) && RunAll(steps) == Some(after)
    requires LastNumber(steps[..m]).Some? ==> LastNumber(steps[..m]).value < b
    requires forall i | m <= i < |steps| && steps[i].Commit? :: b <= steps[i].block.number
    ensures DeleteFrom(after.table, b) == before.table
  {
    hide RunAll, Lawful, Remember;
    LawfulPrefix(steps, m);
    RunRemembers(steps[..m]);
    ExtendsAll(steps, m, b);
    var t := before.table;
    forall k | k in t ensures k.enter < b && (t[k].Some? ==> t[k].value < b) {
      assert k.state == Pending || k.state == Current;
    }
  }
}
