/** `dmd_names`: upserts outside the block transaction, and why replaying a half-done block is harmless. */
module Names {
  import opened Common

  type Hash = int

  datatype Action = Registered | Activated | Deactivated | Renewed | BlockedSet | Transferred

  /** The nullable columns of a row but `updated_at`, and the values an upsert offers; `text` is the column `label`. */
  datatype Row = Row(
    text: Option<string>,
    owner: Option<Address>,
    creator: Option<Address>,
    createdBlock: Option<int>,
    createdTimestamp: Option<int>,
    expiration: Option<int>,
    active: Option<bool>,
    blocked: Option<bool>,
    action: Option<Action>,
    actionBlock: Option<int>,
    actionTimestamp: Option<int>)

  type Table = map<Hash, Row>

  const NULLS := Row(None, None, None, None, None, None, None, None, None, None, None)

  datatype Event =
    | NameRegistered(hash: Hash, name: string, expires: int, block: int, timestamp: int)
    | NameActivated(hash: Hash, name: string, block: int, timestamp: int)
    | NameDeactivated(hash: Hash, name: string, block: int, timestamp: int)
    | NameRenewed(hash: Hash, name: string, expires: int, block: int, timestamp: int)
    | NameBlockedSet(hash: Hash, name: string, isBlocked: bool, block: int, timestamp: int)
    | Transfer(hash: Hash, source: Address, target: Address, block: int, timestamp: int)
  {
    predicate IsMint() {
      Transfer? && source == 0
    }
  }

  /** The values each visit method offers. */
  function Offered(e: Event): Row {
    var seen := NULLS.(actionBlock := Some(e.block), actionTimestamp := Some(e.timestamp));
    match e
    case NameRegistered(_, name, expires, b, ts) =>
      seen.(text := Some(name), createdBlock := Some(b), createdTimestamp := Some(ts), expiration := Some(expires),
            action := Some(Registered))
    case NameActivated(_, name, _, _) => seen.(text := Some(name), active := Some(true), action := Some(Activated))
    case NameDeactivated(_, name, _, _) => seen.(text := Some(name), active := Some(false), action := Some(Deactivated))
    case NameRenewed(_, name, expires, _, _) =>
      seen.(text := Some(name), expiration := Some(expires), action := Some(Renewed))
    case NameBlockedSet(_, name, isBlocked, _, _) =>
      seen.(text := Some(name), blocked := Some(isBlocked), action := Some(BlockedSet))
    case Transfer(_, _, target, b, ts) =>
      var moved := seen.(owner := Some(target), action := Some(Transferred));
      if e.IsMint()
      then moved.(creator := Some(target), createdBlock := Some(b), createdTimestamp := Some(ts), active := Some(false))
      else moved
  }

  function Coalesce<T>(a: Option<T>, b: Option<T>): Option<T> {
    if a.Some? then a else b
  }

  /** ON CONFLICT DO UPDATE: three columns keep their first value, the others take the latest. */
  function Merge(row: Row, excluded: Row): Row {
    Row(
      Coalesce(excluded.text, row.text),
      Coalesce(excluded.owner, row.owner),
      Coalesce(row.creator, excluded.creator),
      Coalesce(row.createdBlock, excluded.createdBlock),
      Coalesce(row.createdTimestamp, excluded.createdTimestamp),
      Coalesce(excluded.expiration, row.expiration),
      Coalesce(excluded.active, row.active),
      Coalesce(excluded.blocked, row.blocked),
      Coalesce(excluded.action, row.action),
      Coalesce(excluded.actionBlock, row.actionBlock),
      Coalesce(excluded.actionTimestamp, row.actionTimestamp))
  }

  function Upsert(t: Table, h: Hash, offered: Row): Table {
    t[h := if h in t then Merge(t[h], offered) else offered]
  }

  function ApplyAll(t: Table, events: seq<Event>): Table {
    if events == [] then t
    else
      var e := events[|events| - 1];
      Upsert(ApplyAll(t, events[..|events| - 1]), e.hash, Offered(e))
  }

  // ----- replay -----

  function RowIn(t: Table, h: Hash): Row {
    if h in t then t[h] else NULLS
  }

  /** All that the events offer one name, merged into one upsert. */
  function Summary(events: seq<Event>, h: Hash): Row {
    if events == [] then NULLS
    else
      var e, before := events[|events| - 1], Summary(events[..|events| - 1], h);
      if e.hash == h then Merge(before, Offered(e)) else before
  }

  predicate Mentions(events: seq<Event>, h: Hash) {
    exists e :: e in events && e.hash == h
  }

  lemma MergeAssociates(a: Row, b: Row, c: Row)
    ensures Merge(Merge(a, b), c) == Merge(a, Merge(b, c))
  {
  }

  /** A batch of upserts acts on each name as its summary. */
  lemma {:induction false} ApplyIsSummary(t: Table, events: seq<Event>, h: Hash)
    ensures h in ApplyAll(t, events) <==> h in t || Mentions(events, h)
    ensures RowIn(ApplyAll(t, events), h) == Merge(RowIn(t, h), Summary(events, h))
  {
    if events != [] {
      var e, before := events[|events| - 1], events[..|events| - 1];
      ApplyIsSummary(t, before, h);
      MergeAssociates(RowIn(t, h), Summary(before, h), Offered(e));
      assert events == before + [e];
      assert Mentions(events, h) <==> Mentions(before, h) || e.hash == h by {
        if e.hash == h { assert e in events; }
      }
    }
  }

  lemma {:induction false} SummarySplits(a: seq<Event>, b: seq<Event>, h: Hash)
    ensures Summary(a + b, h) == Merge(Summary(a, h), Summary(b, h))
  {
    if b == [] {
      assert a + b == a;
    } else {
      var e, before := b[|b| - 1], b[..|b| - 1];
      SummarySplits(a, before, h);
      assert (a + b)[..|a + b| - 1] == a + before;
      MergeAssociates(Summary(a, h), Summary(before, h), Offered(e));
    }
  }

  /** What a whole block offers absorbs what a prefix of it offered before. */
  lemma PrefixAbsorbed(row: Row, prefix: Row, rest: Row)
    ensures Merge(Merge(row, prefix), Merge(prefix, rest)) == Merge(row, Merge(prefix, rest))
  {
  }

  lemma PrefixThenWhole(t: Table, events: seq<Event>, n: nat)
    requires n <= |events|
    ensures ApplyAll(ApplyAll(t, events[..n]), events) == ApplyAll(t, events)
  {
    var a, b := events[..n], events[n..];
    assert a + b == events;
    var once, twice := ApplyAll(t, events), ApplyAll(ApplyAll(t, a), events);
    forall h ensures (h in once <==> h in twice) && (h in once ==> once[h] == twice[h]) {
      ApplyIsSummary(t, events, h);
      ApplyIsSummary(t, a, h);
      ApplyIsSummary(ApplyAll(t, a), events, h);
      SummarySplits(a, b, h);
      PrefixAbsorbed(RowIn(t, h), Summary(a, h), Summary(b, h));
      assert RowIn(once, h) == RowIn(twice, h);
      if Mentions(a, h) {
        var e :| e in a && e.hash == h;
        assert e in events;
      }
    }
    assert once == twice;
  }

  /** The table after aborted attempts that each applied a prefix, then the whole block. */
  function Replay(t: Table, events: seq<Event>, attempts: seq<nat>): Table
    requires forall i | 0 <= i < |attempts| :: attempts[i] <= |events|
    decreases |attempts|
  {
    if attempts == [] then ApplyAll(t, events) else Replay(ApplyAll(t, events[..attempts[0]]), events, attempts[1..])
  }

  /** Any number of half-done attempts leaves what one clean attempt leaves. */
  lemma {:induction false} ReplayHarmless(t: Table, events: seq<Event>, attempts: seq<nat>)
    requires forall i | 0 <= i < |attempts| :: attempts[i] <= |events|
    ensures Replay(t, events, attempts) == ApplyAll(t, events)
    decreases |attempts|
  {
    if attempts != [] {
      ReplayHarmless(ApplyAll(t, events[..attempts[0]]), events, attempts[1..]);
      PrefixThenWhole(t, events, attempts[0]);
    }
  }

  // ----- what the columns mean -----

  /** The value the name's latest event with one gives, else `start`. */
  function Latest<T>(events: seq<Event>, h: Hash, start: Option<T>, value: Event -> Option<T>): Option<T> {
    if events == [] then start
    else
      var e := events[|events| - 1];
      if e.hash == h && value(e).Some? then value(e) else Latest(events[..|events| - 1], h, start, value)
  }

  /** `start`, else the value of the name's first event that gives one. */
  function First<T>(events: seq<Event>, h: Hash, start: Option<T>, value: Event -> Option<T>): Option<T> {
    if start.Some? || events == [] then start
    else
      var e := events[0];
      First(events[1..], h, if e.hash == h then value(e) else None, value)
  }

  lemma {:induction false} FirstAppend<T>(events: seq<Event>, e: Event, h: Hash, start: Option<T>,
                                          value: Event -> Option<T>)
    ensures First(events + [e], h, start, value) ==
      Coalesce(First(events, h, start, value), if e.hash == h then value(e) else None)
  {
    if start.None? && events != [] {
      assert (events + [e])[1..] == events[1..] + [e];
      FirstAppend(events[1..], e, h, if events[0].hash == h then value(events[0]) else None, value);
    } else if start.None? {
      assert ([e])[1..] == [] && events + [e] == [e];
    }
  }

  function NewOwner(e: Event): Option<Address> {
    if e.Transfer? then Some(e.target) else None
  }

  function NewText(e: Event): Option<string> {
    if e.Transfer? then None else Some(e.name)
  }

  function NewExpiration(e: Event): Option<int> {
    if e.NameRegistered? || e.NameRenewed? then Some(e.expires) else None
  }

  function NewActive(e: Event): Option<bool> {
    if e.NameActivated? then Some(true)
    else if e.NameDeactivated? || (e.Transfer? && e.source == 0) then Some(false)
    else None
  }

  function NewBlocked(e: Event): Option<bool> {
    if e.NameBlockedSet? then Some(e.isBlocked) else None
  }

  function LastAction(e: Event): Option<Action> {
    match e
    case NameRegistered(_, _, _, _, _) => Some(Registered)
    case NameActivated(_, _, _, _) => Some(Activated)
    case NameDeactivated(_, _, _, _) => Some(Deactivated)
    case NameRenewed(_, _, _, _, _) => Some(Renewed)
    case NameBlockedSet(_, _, _, _, _) => Some(BlockedSet)
    case Transfer(_, _, _, _, _) => Some(Transferred)
  }

  function ActionBlock(e: Event): Option<int> {
    Some(e.block)
  }

  function ActionTimestamp(e: Event): Option<int> {
    Some(e.timestamp)
  }

  function Minter(e: Event): Option<Address> {
    if e.Transfer? && e.source == 0 then Some(e.target) else None
  }

  function CreatedBlock(e: Event): Option<int> {
    if (e.Transfer? && e.source == 0) || e.NameRegistered? then Some(e.block) else None
  }

  function CreatedTimestamp(e: Event): Option<int> {
    if (e.Transfer? && e.source == 0) || e.NameRegistered? then Some(e.timestamp) else None
  }

  lemma MergedIn(t: Table, events: seq<Event>, e: Event, h: Hash)
    ensures var before := RowIn(ApplyAll(t, events), h);
      RowIn(ApplyAll(t, events + [e]), h) == if e.hash == h then Merge(before, Offered(e)) else before
  {
    assert (events + [e])[..|events|] == events;
  }

  lemma LatestAppend<T>(events: seq<Event>, e: Event, h: Hash, start: Option<T>, value: Event -> Option<T>)
    ensures Latest(events + [e], h, start, value) ==
      Coalesce(if e.hash == h then value(e) else None, Latest(events, h, start, value))
  {
    assert (events + [e])[..|events|] == events;
  }

  /** The owner is the last recipient, and so on for every column that takes the latest value. */
  lemma {:induction false} LatestColumns(t: Table, events: seq<Event>, h: Hash)
    ensures var row, was := RowIn(ApplyAll(t, events), h), RowIn(t, h);
      && row.owner == Latest(events, h, was.owner, NewOwner)
      && row.text == Latest(events, h, was.text, NewText)
      && row.expiration == Latest(events, h, was.expiration, NewExpiration)
      && row.active == Latest(events, h, was.active, NewActive)
      && row.blocked == Latest(events, h, was.blocked, NewBlocked)
      && row.action == Latest(events, h, was.action, LastAction)
      && row.actionBlock == Latest(events, h, was.actionBlock, ActionBlock)
      && row.actionTimestamp == Latest(events, h, was.actionTimestamp, ActionTimestamp)
  {
    if events != [] {
      var e, before, was := events[|events| - 1], events[..|events| - 1], RowIn(t, h);
      LatestColumns(t, before, h);
      assert events == before + [e];
      MergedIn(t, before, e, h);
      LatestAppend(before, e, h, was.owner, NewOwner);
      LatestAppend(before, e, h, was.text, NewText);
      LatestAppend(before, e, h, was.expiration, NewExpiration);
      LatestAppend(before, e, h, was.active, NewActive);
      LatestAppend(before, e, h, was.blocked, NewBlocked);
      LatestAppend(before, e, h, was.action, LastAction);
      LatestAppend(before, e, h, was.actionBlock, ActionBlock);
      LatestAppend(before, e, h, was.actionTimestamp, ActionTimestamp);
      hide ApplyAll, Latest;
    }
  }

  /** The creator is the first minter; the creation block and time are those of the first mint or registration. */
  lemma {:induction false} FirstColumns(t: Table, events: seq<Event>, h: Hash)
    ensures var row, was := RowIn(ApplyAll(t, events), h), RowIn(t, h);
      && row.creator == First(events, h, was.creator, Minter)
      && row.createdBlock == First(events, h, was.createdBlock, CreatedBlock)
      && row.createdTimestamp == First(events, h, was.createdTimestamp, CreatedTimestamp)
  {
    if events != [] {
      var e, before, was := events[|events| - 1], events[..|events| - 1], RowIn(t, h);
      FirstColumns(t, before, h);
      assert events == before + [e];
      MergedIn(t, before, e, h);
      FirstAppend(before, e, h, was.creator, Minter);
      FirstAppend(before, e, h, was.createdBlock, CreatedBlock);
      FirstAppend(before, e, h, was.createdTimestamp, CreatedTimestamp);
      hide ApplyAll, First;
    }
  }

  // ----- the methods -----

  class DbManager {
    var dmdNames: Table

    constructor (names: Table)
      ensures dmdNames == names
    {
      dmdNames := names;
    }

    method UpsertDmdName(h: Hash, excluded: Row)
      modifies this
      ensures dmdNames == Upsert(old(dmdNames), h, excluded)
    {
      if h in dmdNames {
        dmdNames := dmdNames[h := Merge(dmdNames[h], excluded)];
      } else {
        dmdNames := dmdNames[h := excluded];
      }
    }

    /** The first `n` events of a block, as far as an attempt gets. */
    method ProcessEvents(events: seq<Event>, n: nat)
      requires n <= |events|
      modifies this
      ensures dmdNames == ApplyAll(old(dmdNames), events[..n])
    {
      var i := 0;
      while i < n
        invariant 0 <= i <= n
        invariant dmdNames == ApplyAll(old(dmdNames), events[..i])
      {
        assert events[..i + 1][..i] == events[..i];
        UpsertDmdName(events[i].hash, Offered(events[i]));
        i := i + 1;
      }
    }

    /** The retries of one block: `attempts` says how many name events each aborted one had applied. */
    method FillBlock(events: seq<Event>, attempts: seq<nat>)
      requires forall i | 0 <= i < |attempts| :: attempts[i] <= |events|
      modifies this
      ensures dmdNames == ApplyAll(old(dmdNames), events)
    {
      var i := 0;
      while i < |attempts|
        invariant 0 <= i <= |attempts|
        invariant ApplyAll(dmdNames, events) == ApplyAll(old(dmdNames), events)
      {
        PrefixThenWhole(dmdNames, events, attempts[i]);
        ProcessEvents(events, attempts[i]);
        i := i + 1;
      }
      assert events[..|events|] == events;
      ProcessEvents(events, |events|);
    }
  }
}
