/** `pending_validator_state_event` under src/db/validatorObserver.ts. */
module Validators {
  import opened Common

  datatype State = Current | Pending

  /** Primary key of the table; the one other column is the exit block. */
  datatype Key = Key(state: State, node: Address, enter: int, round: int)

  type Table = map<Key, Option<int>>

  datatype Observer = Observer(current: seq<Address>, pending: seq<Address>, round: int, epoch: int)

  /** What the chain says at a processed block. */
  datatype Block = Block(number: int, epoch: int, round: int, pending: seq<Address>, current: seq<Address>)

  predicate IsOpen(t: Table, k: Key, s: State, n: Address) {
    k in t && k.state == s && k.node == n && t[k].None?
  }

  function OpenKeys(t: Table, s: State, n: Address): set<Key> {
    set k | k in t && IsOpen(t, k, s, n)
  }

  /** First under ORDER BY on_enter_block_number DESC, keygen_round DESC. */
  predicate IsNewest(keys: set<Key>, k: Key) {
    k in keys && forall l | l in keys :: l.enter < k.enter || (l.enter == k.enter && l.round <= k.round)
  }

  lemma {:induction false} NewestExists(keys: set<Key>)
    requires keys != {}
    ensures exists k :: IsNewest(keys, k)
  {
    var x := Pick(keys);
    if keys == {x} {
      assert IsNewest(keys, x);
    } else {
      NewestExists(keys - {x});
      var k :| IsNewest(keys - {x}, k);
      if k.enter < x.enter || (k.enter == x.enter && k.round <= x.round) {
        assert IsNewest(keys, x);
      } else {
        assert IsNewest(keys, k);
      }
    }
  }

  /** The row updateOrIgnoreValidator closes: the newest open one not entered at `b`. */
  function RowToClose(t: Table, s: State, n: Address, b: int): (r: Option<Key>)
    ensures r.Some? ==> IsOpen(t, r.value, s, n) && r.value.enter != b
    ensures r.Some? ==> forall l | IsOpen(t, l, s, n) && l.enter != b ::
      l.enter < r.value.enter || (l.enter == r.value.enter && l.round <= r.value.round)
    ensures r.None? ==> forall k | IsOpen(t, k, s, n) :: k.enter == b
  {
    var keys := set k | k in OpenKeys(t, s, n) && k.enter != b;
    if keys == {} then
      assert forall k | IsOpen(t, k, s, n) && k.enter != b :: k in keys;
      None
    else
      NewestExists(keys);
      assert forall k, l | IsNewest(keys, k) && IsNewest(keys, l) :: k == l;
      assert forall l | IsOpen(t, l, s, n) && l.enter != b :: l in keys;
      var k :| IsNewest(keys, k);
      Some(k)
  }

  function Close(t: Table, s: State, n: Address, b: int): Table {
    match RowToClose(t, s, n, b)
    case None => t
    case Some(k) => t[k := Some(b)]
  }

  function Open(t: Table, s: State, n: Address, b: int, round: int): Option<Table> {
    if OpenKeys(t, s, n) != {} then Some(t)
    else if Key(s, n, b, round) in t then None
    else Some(t[Key(s, n, b, round) := None])
  }

  /** processRemovedValidators */
  function CloseAll(t: Table, s: State, nodes: seq<Address>, b: int): Table {
    if nodes == [] then t else Close(CloseAll(t, s, nodes[..|nodes| - 1], b), s, nodes[|nodes| - 1], b)
  }

  /** processAddedValidators */
  function OpenAll(t: Table, s: State, nodes: seq<Address>, b: int, round: int): Option<Table> {
    if nodes == [] then Some(t)
    else
      var u :- OpenAll(t, s, nodes[..|nodes| - 1], b, round);
      Open(u, s, nodes[|nodes| - 1], b, round)
  }

  function Switch(t: Table, s: State, removed: seq<Address>, added: seq<Address>, b: int, round: int): Option<Table> {
    OpenAll(CloseAll(t, s, removed, b), s, added, b, round)
  }

  function Skips(o: Observer, block: Block): bool {
    o.round == block.round && o.epoch == block.epoch && o.pending == block.pending
  }

  /** updateValidators; the second round test never fires, since the first branch has just equalised the rounds. */
  function Update(t: Table, o: Observer, block: Block): Option<(Table, Observer)> {
    if Skips(o, block) then Some((t, o))
    else
      var changed := o.pending != block.pending || o.round != block.round;
      var u :- if changed then Switch(t, Pending, o.pending, block.pending, block.number, block.round) else Some(t);
      var w :-
        if o.current != block.current then Switch(u, Current, o.current, block.current, block.number, block.round)
        else Some(u);
      Some((w, Observer(block.current, block.pending, block.round, block.epoch)))
  }

  // ----- invariants -----

  ghost predicate HasOpen(t: Table, s: State, n: Address) {
    exists k :: IsOpen(t, k, s, n)
  }

  /** The open rows of a state are the list, one row per node. */
  ghost predicate Matches(t: Table, s: State, nodes: seq<Address>) {
    && (forall n :: n in nodes <==> HasOpen(t, s, n))
    && (forall k, l, n | IsOpen(t, k, s, n) && IsOpen(t, l, s, n) :: k == l)
  }

  /** The state's rows were entered, and left, at blocks up to `last`. */
  ghost predicate Past(t: Table, s: State, last: int) {
    forall k | k in t && k.state == s :: k.enter <= last && (t[k].Some? ==> k.enter < t[k].value <= last)
  }

  predicate Covers(t: Table, k: Key, s: State, n: Address, b: int) {
    k in t && k.state == s && k.node == n && k.enter <= b && (t[k].None? || b < t[k].value)
  }

  /** The node is in the state at block `b`, says the table. */
  ghost predicate InState(t: Table, s: State, n: Address, b: int) {
    exists k :: Covers(t, k, s, n, b)
  }

  /** Every open row of a listed node closed at `b`. */
  ghost function Closed(t: Table, s: State, nodes: seq<Address>, b: int): Table {
    map k | k in t :: if k.state == s && k.node in nodes && t[k].None? then Some(b) else t[k]
  }

  ghost predicate OneOpen(t: Table, s: State) {
    forall k, l, n | IsOpen(t, k, s, n) && IsOpen(t, l, s, n) :: k == l
  }

  lemma {:induction false} CloseAllCloses(t: Table, s: State, nodes: seq<Address>, b: int)
    requires OneOpen(t, s) && forall k | k in t && k.state == s :: k.enter < b
    ensures CloseAll(t, s, nodes, b) == Closed(t, s, nodes, b)
  {
    if nodes == [] {
      assert Closed(t, s, [], b) == t;
    } else {
      var before, n := nodes[..|nodes| - 1], nodes[|nodes| - 1];
      CloseAllCloses(t, s, before, b);
      ClosedKeepsOneOpen(t, s, before, b);
      CloseOne(Closed(t, s, before, b), s, n, b);
      ClosedOneMore(t, s, before, n, b);
      assert before + [n] == nodes;
    }
  }

  lemma ClosedOneMore(t: Table, s: State, before: seq<Address>, n: Address, b: int)
    ensures Closed(Closed(t, s, before, b), s, [n], b) == Closed(t, s, before + [n], b)
  {
    assert forall m :: m in before + [n] <==> m in before || m == n;
  }

  lemma ClosedKeepsOneOpen(t: Table, s: State, nodes: seq<Address>, b: int)
    requires OneOpen(t, s)
    ensures OneOpen(Closed(t, s, nodes, b), s)
  {
    var u := Closed(t, s, nodes, b);
    forall k, l, n | IsOpen(u, k, s, n) && IsOpen(u, l, s, n) ensures k == l {
      assert IsOpen(t, k, s, n) && IsOpen(t, l, s, n);
    }
  }

  lemma CloseOne(t: Table, s: State, n: Address, b: int)
    requires OneOpen(t, s) && forall k | k in t && k.state == s :: k.enter < b
    ensures Close(t, s, n, b) == Closed(t, s, [n], b)
  {
    var r := RowToClose(t, s, n, b);
    if r.Some? {
      forall k | k in t ensures Close(t, s, n, b)[k] == Closed(t, s, [n], b)[k] {
        if k.state == s && k.node == n && t[k].None? {
          assert IsOpen(t, k, s, n);
          assert k == r.value;
        }
      }
    } else {
      assert forall k :: !IsOpen(t, k, s, n);
      assert forall k | k in t && k.state == s && k.node == n :: IsOpen(t, k, s, n) || t[k].Some?;
      assert Closed(t, s, [n], b) == t;
    }
  }

  /** A row for every listed node that had none open. */
  ghost function Opened(t: Table, s: State, nodes: seq<Address>, b: int, round: int): Table {
    WithOpen(t, NewKeys(t, s, nodes, b, round))
  }

  ghost function WithOpen(t: Table, keys: set<Key>): Table {
    t + (map k | k in keys :: None)
  }

  lemma WithOneMore(t: Table, keys: set<Key>, k: Key)
    ensures WithOpen(t, keys + {k}) == WithOpen(t, keys)[k := None]
  {
  }

  ghost function NewKeys(t: Table, s: State, nodes: seq<Address>, b: int, round: int): set<Key> {
    set n | n in nodes && !HasOpen(t, s, n) :: Key(s, n, b, round)
  }

  lemma OpenedOpens(t: Table, s: State, nodes: seq<Address>, b: int, round: int)
    requires forall k | k in t && k.state == s :: k.enter < b
    ensures var u := Opened(t, s, nodes, b, round);
      && (forall k | k in t :: k in u && u[k] == t[k])
      && (forall k | k in u && k !in t ::
            && k.enter == b && k.round == round && k.state == s && k.node in nodes
            && !HasOpen(t, s, k.node) && u[k].None?)
      && (forall n | n in nodes && !HasOpen(t, s, n) :: IsOpen(u, Key(s, n, b, round), s, n))
      && (forall n :: HasOpen(u, s, n) <==> HasOpen(t, s, n) || n in nodes)
  {
    var u := Opened(t, s, nodes, b, round);
    forall n | n in nodes && !HasOpen(t, s, n) ensures IsOpen(u, Key(s, n, b, round), s, n) {
      assert Key(s, n, b, round) in NewKeys(t, s, nodes, b, round);
    }
    forall n ensures HasOpen(u, s, n) <==> HasOpen(t, s, n) || n in nodes {
      if HasOpen(t, s, n) {
        var k :| IsOpen(t, k, s, n);
        assert IsOpen(u, k, s, n);
      } else if n in nodes {
        assert IsOpen(u, Key(s, n, b, round), s, n);
      } else if HasOpen(u, s, n) {
        var k :| IsOpen(u, k, s, n);
        assert k !in t by { assert !IsOpen(t, k, s, n); }
      }
    }
  }

  lemma OpenKeysHasOpen(t: Table, s: State, n: Address)
    ensures OpenKeys(t, s, n) != {} <==> HasOpen(t, s, n)
  {
    if HasOpen(t, s, n) {
      var k :| IsOpen(t, k, s, n);
      assert k in OpenKeys(t, s, n);
    }
  }

  lemma {:induction false} OpenAllOpens(t: Table, s: State, nodes: seq<Address>, b: int, round: int)
    requires forall k | k in t && k.state == s :: k.enter < b
    ensures OpenAll(t, s, nodes, b, round) == Some(Opened(t, s, nodes, b, round))
  {
    if nodes == [] {
      assert Opened(t, s, [], b, round) == t;
    } else {
      var before, n := nodes[..|nodes| - 1], nodes[|nodes| - 1];
      OpenAllOpens(t, s, before, b, round);
      OpenOne(t, s, before, n, b, round);
      assert before + [n] == nodes;
    }
  }

  lemma NewKeysNext(t: Table, s: State, before: seq<Address>, n: Address, b: int, round: int)
    ensures NewKeys(t, s, before + [n], b, round) ==
      if HasOpen(t, s, n) || n in before then NewKeys(t, s, before, b, round)
      else NewKeys(t, s, before, b, round) + {Key(s, n, b, round)}
  {
    hide HasOpen;
    assert forall m :: m in before + [n] <==> m in before || m == n;
  }

  lemma OpenOne(t: Table, s: State, before: seq<Address>, n: Address, b: int, round: int)
    requires forall k | k in t && k.state == s :: k.enter < b
    ensures Open(Opened(t, s, before, b, round), s, n, b, round) == Some(Opened(t, s, before + [n], b, round))
  {
    var u, k := Opened(t, s, before, b, round), Key(s, n, b, round);
    OpenedOpens(t, s, before, b, round);
    OpenKeysHasOpen(u, s, n);
    NewKeysNext(t, s, before, n, b, round);
    hide HasOpen, OpenKeys, NewKeys, IsOpen, WithOpen;
    if !HasOpen(u, s, n) {
      assert k !in u;
      WithOneMore(t, NewKeys(t, s, before, b, round), k);
    }
  }
}
