/** What runs, restarts, aborts and rollbacks leave in `pending_validator_state_event`. */
module ValidatorRuns {
  import opened Common
  import opened Validators

  ghost predicate PastAll(t: Table, last: int) {
    Past(t, Pending, last) && Past(t, Current, last)
  }

  ghost predicate SameState(t: Table, u: Table, s: State) {
    forall k: Key | k.state == s :: (k in t <==> k in u) && (k in t ==> t[k] == u[k])
  }

  ghost function Listed(nodes: seq<Address>): set<Address> {
    set n | n in nodes
  }

  /** The state's open rows are those with the keys, one per node. */
  ghost predicate OpenAre(t: Table, s: State, keys: set<Key>) {
    (forall k :: k in keys <==> IsOpen(t, k, s, k.node)) && OneOpen(t, s)
  }

  ghost function Nodes(keys: set<Key>): set<Address> {
    set k | k in keys :: k.node
  }

  /** The reference for a switched list: rows of removed nodes close, added nodes without a row get one. */
  ghost function Switched(open: set<Key>, s: State, removed: seq<Address>, added: seq<Address>, b: int,
                          round: int): set<Key> {
    var kept := set k | k in open && k.node !in removed;
    kept + set n | n in added && n !in Nodes(kept) :: Key(s, n, b, round)
  }

  /** The same rows of the state cover each block before `b`. */
  ghost predicate SameBefore(t: Table, u: Table, s: State, b: int) {
    forall k: Key, x | x < b :: Covers(t, k, s, k.node, x) <==> Covers(u, k, s, k.node, x)
  }

  /** The state's rows covering block `b` are those with the keys. */
  ghost predicate CoveredBy(t: Table, s: State, b: int, keys: set<Key>) {
    forall k :: k in keys <==> Covers(t, k, s, k.node, b)
  }

  lemma OpenNodes(t: Table, s: State, keys: set<Key>)
    requires OpenAre(t, s, keys)
    ensures forall n :: n in Nodes(keys) <==> HasOpen(t, s, n)
  {
    forall n ensures n in Nodes(keys) <==> HasOpen(t, s, n) {
      if k :| IsOpen(t, k, s, n) { assert k in keys; }
    }
  }

  lemma ClosedOpen(t: Table, s: State, open: set<Key>, removed: seq<Address>, b: int)
    requires OpenAre(t, s, open)
    ensures OpenAre(Closed(t, s, removed, b), s, set k | k in open && k.node !in removed)
  {
    ClosedKeepsOneOpen(t, s, removed, b);
  }

  lemma OpenedOnce(c: Table, s: State, added: seq<Address>, b: int, round: int)
    requires OneOpen(c, s) && forall k | k in c && k.state == s :: k.enter < b
    ensures OneOpen(Opened(c, s, added, b, round), s)
  {
    OpenedOpens(c, s, added, b, round);
    var u := Opened(c, s, added, b, round);
    forall k, l, n | IsOpen(u, k, s, n) && IsOpen(u, l, s, n) ensures k == l {
      assert k in c ==> IsOpen(c, k, s, n) && HasOpen(c, s, n);
      assert l in c ==> IsOpen(c, l, s, n) && HasOpen(c, s, n);
    }
  }

  lemma OpenedOpen(c: Table, s: State, kept: set<Key>, added: seq<Address>, b: int, round: int)
    requires OpenAre(c, s, kept) && forall k | k in c && k.state == s :: k.enter < b
    ensures OpenAre(Opened(c, s, added, b, round), s,
                    kept + set n | n in added && n !in Nodes(kept) :: Key(s, n, b, round))
  {
    OpenedOpens(c, s, added, b, round);
    OpenedOnce(c, s, added, b, round);
    OpenNodes(c, s, kept);
    var u, more := Opened(c, s, added, b, round), set n | n in added && n !in Nodes(kept) :: Key(s, n, b, round);
    hide Opened, HasOpen, Nodes;
    forall k ensures k in kept + more <==> IsOpen(u, k, s, k.node) {
      if k in more { assert IsOpen(u, Key(s, k.node, b, round), s, k.node); }
      if IsOpen(u, k, s, k.node) && k !in c { assert k.node in added && k == Key(s, k.node, b, round); }
    }
  }

  /** A block's rows closed and opened: nothing changes before it, and from it on the open rows count. */
  lemma SwitchCovers(t: Table, c: Table, u: Table, s: State, b: int, open: set<Key>)
    requires forall k | k in t && k.state == s :: k.enter < b && (t[k].Some? ==> t[k].value < b)
    requires c.Keys == t.Keys && forall k | k in t :: c[k] == t[k] || (t[k].None? && c[k] == Some(b))
    requires forall k | k in c :: k in u && u[k] == c[k]
    requires forall k | k in u && k !in c :: k.enter == b && k.state == s && u[k].None?
    requires OpenAre(u, s, open)
    ensures SameBefore(t, u, s, b) && CoveredBy(u, s, b, open)
  {
  }

  /** Whichever rows are open: those of the removed nodes are closed, the others stay, the added ones are opened. */
  lemma SwitchKeeps(t: Table, s: State, open: set<Key>, removed: seq<Address>, added: seq<Address>,
                    b: int, round: int, last: int)
    requires OpenAre(t, s, open) && Past(t, s, last) && last < b
    ensures var r, after := Switch(t, s, removed, added, b, round), Switched(open, s, removed, added, b, round);
      && r.Some?
      && OpenAre(r.value, s, after) && Past(r.value, s, b)
      && SameBefore(t, r.value, s, b) && CoveredBy(r.value, s, b, after)
      && (forall other | other != s :: SameState(t, r.value, other))
  {
    CloseAllCloses(t, s, removed, b);
    var c, kept := Closed(t, s, removed, b), set k | k in open && k.node !in removed;
    ClosedOpen(t, s, open, removed, b);
    OpenAllOpens(c, s, added, b, round);
    OpenedOpens(c, s, added, b, round);
    OpenedOpen(c, s, kept, added, b, round);
    var u := Opened(c, s, added, b, round);
    hide Opened, OpenAll, CloseAll, OpenAre;
    SwitchCovers(t, c, u, s, b, Switched(open, s, removed, added, b, round));
  }

  // ----- runs -----

  /** What was seen of a processed block: the block and the observer after it. */
  datatype Entry = Entry(block: Block, observer: Observer)

  datatype System = System(table: Table, observer: Observer, log: seq<Entry>)

  /** A step commits a block, or restarts the process with the open rows in the order the query returned them. */
  datatype Step = Process(block: Block) | Restart(current: seq<Address>, pending: seq<Address>)

  /** Round and epoch start from zero again. */
  function Restarted(current: seq<Address>, pending: seq<Address>): Observer {
    Observer(current, pending, 0, 0)
  }

  function Apply(y: System, step: Step): Option<System> {
    match step
    case Process(block) =>
      var (t, o) :- Update(y.table, y.observer, block);
      Some(System(t, o, y.log + [Entry(block, o)]))
    case Restart(current, pending) => Some(y.(observer := Restarted(current, pending)))
  }

  const START := System(map[], Observer([], [], 0, 0), [])

  function Run(steps: seq<Step>): Option<System> {
    if steps == [] then Some(START)
    else
      var y :- Run(steps[..|steps| - 1]);
      Apply(y, steps[|steps| - 1])
  }

  ghost predicate Allowed(y: System, step: Step) {
    match step
    case Process(block) => y.log != [] ==> y.log[|y.log| - 1].block.number < block.number
    case Restart(current, pending) => Matches(y.table, Current, current) && Matches(y.table, Pending, pending)
  }

  /** Block numbers increase, and a restarted observer lists the open rows. */
  ghost predicate Legal(steps: seq<Step>) {
    steps == [] ||
    var before := steps[..|steps| - 1];
    Legal(before) && Run(before).Some? && Allowed(Run(before).value, steps[|steps| - 1])
  }

  /**
   * At every processed block the table names exactly the pending validators, by rows of the block's key
   * generation round, and the current validators last fetched.
   */
  ghost predicate RecordedAt(t: Table, e: Entry) {
    && (forall n :: InState(t, Pending, n, e.block.number) <==> n in e.block.pending)
    && (forall n :: InState(t, Current, n, e.block.number) <==> n in e.observer.current)
    && (e.block.round != 0 ==>
          forall k: Key | Covers(t, k, Pending, k.node, e.block.number) :: k.round == e.block.round)
  }

  ghost predicate Recorded(t: Table, log: seq<Entry>) {
    forall i | 0 <= i < |log| :: RecordedAt(t, log[i])
  }

  /** The row was entered at a processed block, in the key generation round of that block. */
  ghost predicate EnteredIn(k: Key, log: seq<Entry>) {
    exists i :: 0 <= i < |log| && log[i].block.number == k.enter && log[i].block.round == k.round
  }

  ghost predicate AllEntered(t: Table, log: seq<Entry>) {
    forall k | k in t :: EnteredIn(k, log)
  }

  ghost predicate Sound(y: System) {
    && Matches(y.table, Pending, y.observer.pending)
    && Matches(y.table, Current, y.observer.current)
    && (y.log == [] ==> y.table == map[])
    && (y.log != [] ==> PastAll(y.table, y.log[|y.log| - 1].block.number))
    && (forall i, j | 0 <= i < j < |y.log| :: y.log[i].block.number < y.log[j].block.number)
    && Recorded(y.table, y.log)
    && InRound(OpenOf(y.table, Pending), y.observer.round)
    && AllEntered(y.table, y.log)
  }

  lemma SameStateOpen(t: Table, u: Table, s: State, open: set<Key>, b: int)
    requires SameState(t, u, s) && OpenAre(t, s, open)
    ensures OpenAre(u, s, open) && SameBefore(t, u, s, b)
    ensures CoveredBy(t, s, b, open) ==> CoveredBy(u, s, b, open)
    ensures forall last | Past(t, s, last) :: Past(u, s, last)
  {
  }

  lemma OpenCoverNext(t: Table, s: State, open: set<Key>, last: int, b: int)
    requires OpenAre(t, s, open) && Past(t, s, last) && last < b
    ensures CoveredBy(t, s, b, open) && Past(t, s, b)
  {
  }

  // ----- one processed block -----

  /** The observer next to the open rows of each state. */
  datatype Memory = Memory(observer: Observer, pending: set<Key>, current: set<Key>)

  /**
   * The reference for a processed block: if round, epoch and pending validators are the observer's, nothing
   * happens. Otherwise the pending rows are entered anew if the round or the list differs, the current ones
   * if their list does.
   */
  ghost function Committed(m: Memory, block: Block): Memory {
    var o, b, round := m.observer, block.number, block.round;
    if o.round == round && o.epoch == block.epoch && o.pending == block.pending then m
    else
      Memory(Observer(block.current, block.pending, round, block.epoch),
             if o.round == round && o.pending == block.pending then m.pending
             else Switched(m.pending, Pending, o.pending, block.pending, b, round),
             if o.current == block.current then m.current
             else Switched(m.current, Current, o.current, block.current, b, round))
  }

  /** One state's half of a processed block, whether its list changed or not. */
  lemma HalfKeeps(t: Table, s: State, open: set<Key>, before: seq<Address>, after: seq<Address>, changed: bool,
                  b: int, round: int, last: int)
    requires OpenAre(t, s, open) && Past(t, s, last) && last < b
    ensures var r := if changed then Switch(t, s, before, after, b, round) else Some(t);
      var then' := if changed then Switched(open, s, before, after, b, round) else open;
      && r.Some?
      && OpenAre(r.value, s, then') && Past(r.value, s, b)
      && SameBefore(t, r.value, s, b) && CoveredBy(r.value, s, b, then')
      && (forall other | other != s :: SameState(t, r.value, other))
  {
    hide Switch, Past, Switched, OpenAre, CoveredBy;
    if changed {
      SwitchKeeps(t, s, open, before, after, b, round, last);
    } else {
      OpenCoverNext(t, s, open, last, b);
    }
  }

  lemma SameTwice(t: Table, u: Table, r: Table, s: State, b: int)
    requires SameBefore(t, u, s, b) && SameBefore(u, r, s, b)
    ensures SameBefore(t, r, s, b)
  {
  }

  /** A processed block does to the rows what the reference says, and changes no row's claim on an earlier block. */
  lemma UpdateKeeps(t: Table, m: Memory, block: Block, last: int)
    requires OpenAre(t, Pending, m.pending) && OpenAre(t, Current, m.current)
    requires PastAll(t, last) && last < block.number
    ensures var r, after, b := Update(t, m.observer, block), Committed(m, block), block.number;
      && r.Some? && r.value.1 == after.observer
      && OpenAre(r.value.0, Pending, after.pending) && OpenAre(r.value.0, Current, after.current)
      && PastAll(r.value.0, b)
      && SameBefore(t, r.value.0, Pending, b) && SameBefore(t, r.value.0, Current, b)
      && CoveredBy(r.value.0, Pending, b, after.pending) && CoveredBy(r.value.0, Current, b, after.current)
  {
    hide Switch, Past, OpenAre, SameState, CoveredBy, Switched;
    var o, b := m.observer, block.number;
    if Skips(o, block) {
      OpenCoverNext(t, Pending, m.pending, last, b);
      OpenCoverNext(t, Current, m.current, last, b);
    } else {
      var changed := o.pending != block.pending || o.round != block.round;
      HalfKeeps(t, Pending, m.pending, o.pending, block.pending, changed, b, block.round, last);
      var u := (if changed then Switch(t, Pending, o.pending, block.pending, b, block.round) else Some(t)).value;
      SameStateOpen(t, u, Current, m.current, b);
      var moved := o.current != block.current;
      HalfKeeps(u, Current, m.current, o.current, block.current, moved, b, block.round, last);
      var r := (if moved then Switch(u, Current, o.current, block.current, b, block.round) else Some(u)).value;
      SameStateOpen(u, r, Pending, Committed(m, block).pending, b);
      hide SameBefore;
      SameTwice(t, u, r, Pending, b);
      SameTwice(t, u, r, Current, b);
    }
  }

  // ----- the observer's lists in order -----

  ghost function OpenOf(t: Table, s: State): (keys: set<Key>)
    ensures OneOpen(t, s) ==> OpenAre(t, s, keys)
  {
    set k | k in t && IsOpen(t, k, s, k.node)
  }

  lemma CoveredNodes(t: Table, s: State, b: int, keys: set<Key>)
    requires CoveredBy(t, s, b, keys)
    ensures forall n :: InState(t, s, n, b) <==> n in Nodes(keys)
  {
    forall n ensures InState(t, s, n, b) <==> n in Nodes(keys) {
      if k :| Covers(t, k, s, n, b) { assert k in keys; }
    }
  }

  lemma SameNodesBefore(t: Table, u: Table, s: State, b: int)
    requires SameBefore(t, u, s, b)
    ensures forall n, x | x < b :: InState(u, s, n, x) <==> InState(t, s, n, x)
  {
    forall n, x | x < b ensures InState(u, s, n, x) <==> InState(t, s, n, x) {
      assert forall k: Key | k.node == n :: Covers(t, k, s, k.node, x) <==> Covers(u, k, s, k.node, x);
    }
  }

  lemma MatchesOpen(t: Table, s: State, nodes: seq<Address>, keys: set<Key>)
    requires OpenAre(t, s, keys)
    ensures Matches(t, s, nodes) <==> Nodes(keys) == Listed(nodes)
  {
    OpenNodes(t, s, keys);
    hide HasOpen;
    if Matches(t, s, nodes) { assert forall n :: n in Nodes(keys) <==> n in Listed(nodes); }
  }

  /** Where the old list has all open rows, switching enters every row anew. */
  lemma SwitchedAll(open: set<Key>, s: State, removed: seq<Address>, added: seq<Address>, b: int, round: int)
    requires Nodes(open) == Listed(removed)
    ensures Nodes(Switched(open, s, removed, added, b, round)) == Listed(added)
    ensures forall k | k in Switched(open, s, removed, added, b, round) :: k.enter == b && k.round == round
  {
    var kept := set k | k in open && k.node !in removed;
    forall k | k in open ensures k.node in removed { assert k.node in Nodes(open); }
    assert kept == {};
    forall n | n in added ensures n in Nodes(Switched(open, s, removed, added, b, round)) {
      assert Key(s, n, b, round) in Switched(open, s, removed, added, b, round);
    }
  }

  /** Switching a list that matches the open rows records exactly the new list from block `b` on. */
  lemma SwitchRecords(t: Table, s: State, removed: seq<Address>, added: seq<Address>, b: int, round: int, last: int)
    requires Matches(t, s, removed) && Past(t, s, last) && last < b
    ensures var r := Switch(t, s, removed, added, b, round);
      && r.Some?
      && Matches(r.value, s, added)
      && Past(r.value, s, b)
      && (forall n, x | x < b :: InState(r.value, s, n, x) <==> InState(t, s, n, x))
      && (forall n :: InState(r.value, s, n, b) <==> n in added)
      && (forall k, n | Covers(r.value, k, s, n, b) :: k.enter == b && k.round == round)
      && (forall other | other != s :: SameState(t, r.value, other))
  {
    var open := OpenOf(t, s);
    var after := Switched(open, s, removed, added, b, round);
    SwitchKeeps(t, s, open, removed, added, b, round, last);
    var r := Switch(t, s, removed, added, b, round).value;
    hide Switch, Past, InState, HasOpen, OpenOf, Switched, SameState, OpenAre;
    MatchesOpen(t, s, removed, open);
    SwitchedAll(open, s, removed, added, b, round);
    MatchesOpen(r, s, added, after);
    CoveredNodes(r, s, b, after);
    SameNodesBefore(t, r, s, b);
    hide Matches, SameBefore;
    forall k, n | Covers(r, k, s, n, b) ensures k.enter == b && k.round == round { assert k in after; }
  }

  /** Every one of the rows is of the round; a freshly started observer, whose round is 0, says nothing. */
  ghost predicate InRound(keys: set<Key>, round: int) {
    round != 0 ==> forall k | k in keys :: k.round == round
  }

  /** The reference keeps the lists in step with the open rows, and all pending rows in the observer's round. */
  lemma CommittedLists(m: Memory, block: Block)
    requires Nodes(m.pending) == Listed(m.observer.pending) && Nodes(m.current) == Listed(m.observer.current)
    requires InRound(m.pending, m.observer.round)
    ensures var after := Committed(m, block);
      && Nodes(after.pending) == Listed(block.pending) && after.observer.pending == block.pending
      && Nodes(after.current) == Listed(after.observer.current)
      && after.observer.round == block.round && InRound(after.pending, block.round)
  {
    hide Nodes, Switched;
    var o, b, round := m.observer, block.number, block.round;
    SwitchedAll(m.pending, Pending, o.pending, block.pending, b, round);
    SwitchedAll(m.current, Current, o.current, block.current, b, round);
  }

  lemma ObserverAfter(t: Table, o: Observer, block: Block)
    requires Update(t, o, block).Some?
    ensures Update(t, o, block).value ==
      if o.round == block.round && o.epoch == block.epoch && o.pending == block.pending then (t, o)
      else (Update(t, o, block).value.0, Observer(block.current, block.pending, block.round, block.epoch))
  {
    hide Switch;
  }

  /** One processed block: earlier blocks keep their record and the new one gets its own. */
  lemma UpdateRecords(t: Table, o: Observer, block: Block, last: int)
    requires Matches(t, Pending, o.pending) && Matches(t, Current, o.current) && last < block.number
    requires PastAll(t, last) && InRound(OpenOf(t, Pending), o.round)
    ensures var r := Update(t, o, block); var b := block.number;
      && r.Some?
      && var (u, p) := r.value;
      && Matches(u, Pending, p.pending) && Matches(u, Current, p.current) && PastAll(u, b)
      && SameBefore(t, u, Pending, b) && SameBefore(t, u, Current, b)
      && (forall n :: InState(u, Pending, n, b) <==> n in block.pending)
      && (forall n :: InState(u, Current, n, b) <==> n in p.current)
      && (if o.round == block.round && o.epoch == block.epoch && o.pending == block.pending then (u, p) == (t, o)
          else p == Observer(block.current, block.pending, block.round, block.epoch))
      && InRound(OpenOf(u, Pending), block.round) && CoveredBy(u, Pending, b, OpenOf(u, Pending))
  {
    var m, b := Memory(o, OpenOf(t, Pending), OpenOf(t, Current)), block.number;
    hide Update, Past, InState, HasOpen, OpenOf, SameBefore, Committed, InRound;
    MatchesOpen(t, Pending, o.pending, m.pending);
    MatchesOpen(t, Current, o.current, m.current);
    UpdateKeeps(t, m, block, last);
    CommittedLists(m, block);
    ObserverAfter(t, o, block);
    var (u, p) := Update(t, o, block).value;
    var after := Committed(m, block);
    assert OpenOf(u, Pending) == after.pending by { OpenOnce(u, Pending, after.pending); }
    MatchesOpen(u, Pending, p.pending, after.pending);
    MatchesOpen(u, Current, p.current, after.current);
    CoveredNodes(u, Pending, b, after.pending);
    CoveredNodes(u, Current, b, after.current);
  }

  lemma OpenOnce(t: Table, s: State, keys: set<Key>)
    requires OpenAre(t, s, keys)
    ensures OpenOf(t, s) == keys
  {
  }

  /** Rows are only added under block `b` and the round. */
  ghost predicate AddsOnly(t: Table, u: Table, b: int, round: int) {
    forall k | k in u && k !in t :: k.enter == b && k.round == round
  }

  lemma {:induction false} CloseAddsNothing(t: Table, s: State, nodes: seq<Address>, b: int)
    ensures CloseAll(t, s, nodes, b).Keys == t.Keys
  {
    if nodes != [] { CloseAddsNothing(t, s, nodes[..|nodes| - 1], b); }
  }

  lemma {:induction false} OpenAdds(t: Table, s: State, nodes: seq<Address>, b: int, round: int)
    requires OpenAll(t, s, nodes, b, round).Some?
    ensures AddsOnly(t, OpenAll(t, s, nodes, b, round).value, b, round)
  {
    if nodes != [] { OpenAdds(t, s, nodes[..|nodes| - 1], b, round); }
  }

  lemma SwitchAdds(t: Table, s: State, removed: seq<Address>, added: seq<Address>, b: int, round: int)
    requires Switch(t, s, removed, added, b, round).Some?
    ensures AddsOnly(t, Switch(t, s, removed, added, b, round).value, b, round)
  {
    CloseAddsNothing(t, s, removed, b);
    OpenAdds(CloseAll(t, s, removed, b), s, added, b, round);
    hide OpenAll, CloseAll;
  }

  /** A processed block adds rows under its own number and key generation round only. */
  lemma UpdateAdds(t: Table, o: Observer, block: Block)
    requires Update(t, o, block).Some?
    ensures AddsOnly(t, Update(t, o, block).value.0, block.number, block.round)
  {
    hide Switch;
    if !Skips(o, block) {
      var b, round := block.number, block.round;
      var changed := o.pending != block.pending || o.round != block.round;
      if changed { SwitchAdds(t, Pending, o.pending, block.pending, b, round); }
      var u := (if changed then Switch(t, Pending, o.pending, block.pending, b, round) else Some(t)).value;
      if o.current != block.current { SwitchAdds(u, Current, o.current, block.current, b, round); }
    }
  }

  lemma EnteredNext(t: Table, u: Table, log: seq<Entry>, e: Entry)
    requires AllEntered(t, log) && AddsOnly(t, u, e.block.number, e.block.round)
    ensures AllEntered(u, log + [e])
  {
    var all := log + [e];
    forall k | k in u ensures EnteredIn(k, all) {
      if k in t {
        var i :| 0 <= i < |log| && log[i].block.number == k.enter && log[i].block.round == k.round;
        assert all[i] == log[i];
      } else {
        assert all[|log|] == e;
      }
    }
  }

  lemma StillRecorded(t: Table, u: Table, e: Entry, b: int)
    requires RecordedAt(t, e) && e.block.number < b && SameBefore(t, u, Pending, b) && SameBefore(t, u, Current, b)
    ensures RecordedAt(u, e)
  {
    SameNodesBefore(t, u, Pending, b);
    SameNodesBefore(t, u, Current, b);
    hide InState;
  }

  lemma RecordedNext(t: Table, u: Table, log: seq<Entry>, e: Entry)
    requires Recorded(t, log) && forall i | 0 <= i < |log| :: log[i].block.number < e.block.number
    requires SameBefore(t, u, Pending, e.block.number) && SameBefore(t, u, Current, e.block.number)
    requires RecordedAt(u, e)
    ensures Recorded(u, log + [e])
  {
    hide RecordedAt, SameBefore;
    forall i | 0 <= i < |log| ensures RecordedAt(u, log[i]) { StillRecorded(t, u, log[i], e.block.number); }
  }

  lemma RecordedNow(u: Table, e: Entry, keys: set<Key>)
    requires forall n :: InState(u, Pending, n, e.block.number) <==> n in e.block.pending
    requires forall n :: InState(u, Current, n, e.block.number) <==> n in e.observer.current
    requires InRound(keys, e.block.round) && CoveredBy(u, Pending, e.block.number, keys)
    ensures RecordedAt(u, e)
  {
    hide InState;
  }

  lemma NothingPast(last: int)
    ensures PastAll(map[], last)
  {
  }

  lemma ProcessSound(y: System, block: Block)
    requires Sound(y) && Allowed(y, Process(block))
    ensures Update(y.table, y.observer, block).Some?
    ensures var (u, p) := Update(y.table, y.observer, block).value;
      Sound(System(u, p, y.log + [Entry(block, p)]))
  {
    hide Update, InState, AllEntered, Recorded, Matches, Past, SameBefore, InRound, OpenOf, CoveredBy;
    var last := if y.log == [] then block.number - 1 else y.log[|y.log| - 1].block.number;
    if y.log == [] { NothingPast(last); }
    UpdateRecords(y.table, y.observer, block, last);
    UpdateAdds(y.table, y.observer, block);
    var (u, p) := Update(y.table, y.observer, block).value;
    EnteredNext(y.table, u, y.log, Entry(block, p));
    RecordedNow(u, Entry(block, p), OpenOf(u, Pending));
    RecordedNext(y.table, u, y.log, Entry(block, p));
  }

  lemma ApplySound(y: System, step: Step)
    requires Sound(y) && Allowed(y, step)
    ensures Apply(y, step).Some? && Sound(Apply(y, step).value)
  {
    if step.Process? {
      hide Update, Sound;
      ProcessSound(y, step.block);
    }
  }

  /**
   * After every run, restarts included, the rows name at each processed block exactly the validators
   * pending there, each row was entered at such a block and in its key generation round, and the open
   * rows are the observer's lists.
   */
  lemma {:induction false} RunSound(steps: seq<Step>)
    requires Legal(steps)
    ensures Run(steps).Some? && Sound(Run(steps).value)
  {
    hide Apply, Sound;
    if steps == [] {
      StartSound();
    } else {
      RunSound(steps[..|steps| - 1]);
      ApplySound(Run(steps[..|steps| - 1]).value, steps[|steps| - 1]);
    }
  }

  lemma StartSound()
    ensures Sound(START)
  {
  }

  // ----- abort -----

  /**
   * A block that aborts after the observer ran leaves the rows as they were but the lists advanced, so
   * the retry skips: the block's pending validators are recorded exactly when the set did not change.
   */
  lemma AbortedRetry(t: Table, o: Observer, block: Block, last: int, p: Observer)
    requires Matches(t, Pending, o.pending) && Matches(t, Current, o.current) && PastAll(t, last) && last < block.number
    requires Update(t, o, block).Some? && Update(t, o, block).value.1 == p
    ensures Update(t, p, block) == Some((t, p))
    ensures (forall n :: InState(t, Pending, n, block.number) <==> n in block.pending) <==>
            (forall n :: n in o.pending <==> n in block.pending)
  {
    var keys := OpenOf(t, Pending);
    MatchesOpen(t, Pending, o.pending, keys);
    OpenCoverNext(t, Pending, keys, last, block.number);
    CoveredNodes(t, Pending, block.number, keys);
    assert Skips(p, block);
  }

  /** One new pending validator, lost by the retry. */
  lemma AbortLosesValidator(n: Address)
    ensures var block := Block(1, 1, 1, [n], []);
      && Update(map[], START.observer, block).Some?
      && Update(map[], Update(map[], START.observer, block).value.1, block).value.0 == map[]
      && !InState(map[], Pending, n, 1) && n in block.pending
  {
    var block := Block(1, 1, 1, [n], []);
    UpdateRecords(map[], START.observer, block, 0);
    var p := Update(map[], START.observer, block).value.1;
    AbortedRetry(map[], START.observer, block, 0, p);
  }

  // ----- rollback -----

  /** deleteDataFromBlock on this table: reopen the late exits, then delete the late entries. */
  function DeleteFrom(t: Table, b: int): Table {
    map k | k in t && k.enter < b :: if t[k].Some? && t[k].value >= b then None else t[k]
  }

  /** `u` has the rows of `t`, some open ones closed at `b` or later, and rows entered at `b` or later. */
  ghost predicate Extends(t: Table, u: Table, b: int) {
    && (forall k | k in t :: k in u && (u[k] == t[k] || (t[k].None? && u[k].Some? && u[k].value >= b)))
    && (forall k | k in u && k !in t :: k.enter >= b)
  }

  lemma {:induction false} ExtendsClose(t: Table, u: Table, s: State, nodes: seq<Address>, n: int, b: int)
    requires Extends(t, u, b) && b <= n
    ensures Extends(t, CloseAll(u, s, nodes, n), b)
  {
    if nodes != [] { ExtendsClose(t, u, s, nodes[..|nodes| - 1], n, b); }
  }

  lemma {:induction false} ExtendsOpen(t: Table, u: Table, s: State, nodes: seq<Address>, n: int, round: int, b: int)
    requires Extends(t, u, b) && b <= n && OpenAll(u, s, nodes, n, round).Some?
    ensures Extends(t, OpenAll(u, s, nodes, n, round).value, b)
  {
    if nodes != [] { ExtendsOpen(t, u, s, nodes[..|nodes| - 1], n, round, b); }
  }

  lemma ExtendsSwitch(t: Table, u: Table, s: State, removed: seq<Address>, added: seq<Address>, n: int, round: int,
                      b: int)
    requires Extends(t, u, b) && b <= n && Switch(u, s, removed, added, n, round).Some?
    ensures Extends(t, Switch(u, s, removed, added, n, round).value, b)
  {
    ExtendsClose(t, u, s, removed, n, b);
    ExtendsOpen(t, CloseAll(u, s, removed, n), s, added, n, round, b);
  }

  lemma ExtendsUpdate(t: Table, u: Table, o: Observer, block: Block, b: int)
    requires Extends(t, u, b) && b <= block.number && Update(u, o, block).Some?
    ensures Extends(t, Update(u, o, block).value.0, b)
  {
    hide Switch, Extends;
    if !Skips(o, block) {
      var n, round := block.number, block.round;
      var changed := o.pending != block.pending || o.round != block.round;
      if changed { ExtendsSwitch(t, u, Pending, o.pending, block.pending, n, round, b); }
      var w := (if changed then Switch(u, Pending, o.pending, block.pending, n, round) else Some(u)).value;
      if o.current != block.current { ExtendsSwitch(t, w, Current, o.current, block.current, n, round, b); }
    }
  }

  lemma {:induction false} ExtendsRun(steps: seq<Step>, m: nat, b: int)
    requires m <= |steps| && Legal(steps)
    requires forall i | m <= i < |steps| && steps[i].Process? :: b <= steps[i].block.number
    ensures Legal(steps[..m])
    ensures Run(steps[..m]).Some? && Run(steps).Some?
    ensures Extends(Run(steps[..m]).value.table, Run(steps).value.table, b)
    decreases |steps|
  {
    hide Sound, Update, Allowed;
    RunSound(steps);
    if m == |steps| {
      assert steps[..m] == steps;
    } else {
      var before, step := steps[..|steps| - 1], steps[|steps| - 1];
      assert before[..m] == steps[..m];
      ExtendsRun(before, m, b);
      var y := Run(before).value;
      if step.Process? { ExtendsUpdate(Run(steps[..m]).value.table, y.table, y.observer, step.block, b); }
    }
  }

  /** The two statements for block `b` undo everything processed from `b` on: the rows are those of before. */
  lemma ValidatorsDeleted(steps: seq<Step>, m: nat, b: int, before: System, after: System)
    requires m <= |steps| && Legal(steps)
    requires Run(steps[..m]) == Some(before) && Run(steps) == Some(after)
    requires forall i | 0 <= i < |before.log| :: before.log[i].block.number < b
    requires forall i | m <= i < |steps| && steps[i].Process? :: b <= steps[i].block.number
    ensures DeleteFrom(after.table, b) == before.table
  {
    hide Run, Legal;
    ExtendsRun(steps, m, b);
    RunSound(steps[..m]);
    var t := before.table;
    forall k | k in t ensures k.enter < b && (t[k].Some? ==> t[k].value < b) {
      assert k.state == Pending || k.state == Current;
    }
  }

  /** No row was entered or left at `b` or later. */
  predicate AllPast(t: Table, b: int) {
    forall k | k in t :: k.enter < b && (t[k].Some? ==> t[k].value < b)
  }

  lemma ValidatorsUnchanged(steps: seq<Step>, m: nat, b: int, before: System, after: System)
    requires m <= |steps| && Legal(steps)
    requires Run(steps[..m]) == Some(before) && Run(steps) == Some(after)
    requires forall i | 0 <= i < |before.log| :: before.log[i].block.number < b
    requires forall i | m <= i < |steps| && steps[i].Process? :: b <= steps[i].block.number
    ensures after.table == before.table <==> AllPast(after.table, b)
  {
    hide Run, Legal;
    ValidatorsDeleted(steps, m, b, before, after);
    if AllPast(after.table, b) { assert DeleteFrom(after.table, b) == after.table; }
    if after.table == before.table {
      forall k | k in after.table
        ensures k.enter < b && (after.table[k].Some? ==> after.table[k].value < b)
      {
        assert DeleteFrom(after.table, b)[k] == after.table[k];
      }
    }
  }
}
