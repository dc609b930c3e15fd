/** `stake_history` as a compressed form of each pool's sequence of stake changes. */
module StakeHistory {
  import opened Common
  import opened StakeTables

  /** One effective change of a pool's stake. */
  datatype Change = Change(block: int, delta: int)

  // ----- the reference: what the event log alone says -----

  function Init<T>(s: seq<T>): seq<T>
    requires s != []
  {
    s[..|s| - 1]
  }

  function Last<T>(s: seq<T>): T
    requires s != []
  {
    s[|s| - 1]
  }

  /** Some event gave the pool its first row. */
  ghost predicate Known(log: seq<Event>, p: Address) {
    log != [] && (
      || Known(Init(log), p)
      || (Last(log).StakeChanged? && Last(log).pool == p)
      || (Last(log).MovedStake? && Last(log).target == p && Known(Init(log), Last(log).source)))
  }

  /** The claim matches an order of its pair on a known pool. */
  ghost predicate EffectiveClaim(log: seq<Event>, e: Event) {
    e.ClaimedWithdrawal? && Known(log, e.pool) && HasOpen(log, e.pool, e.staker)
  }

  /** The pair ordered a withdrawal after its last effective claim. */
  ghost predicate HasOpen(log: seq<Event>, pool: Address, staker: Address) {
    if log == [] then false
    else
      var e := Last(log);
      if e.OrderedWithdrawal? && e.pool == pool && e.staker == staker then true
      else if e.ClaimedWithdrawal? && e.pool == pool && e.staker == staker && Known(Init(log), pool) then false
      else HasOpen(Init(log), pool, staker)
  }

  /** A withdrawal as a pool's very first event is stored with the wrong sign. */
  ghost predicate FirstWithdrawal(log: seq<Event>, e: Event) {
    e.StakeChanged? && e.withdrew && !Known(log, e.pool)
  }

  ghost function EventChanges(log: seq<Event>, e: Event, p: Address): seq<Change> {
    match e
    case StakeChanged(b, pool, _, amount, withdrew) =>
      if pool != p then [] else [Change(b, if withdrew && Known(log, p) then -e.Wei() else e.Wei())]
    case MovedStake(b, source, target, _, amount) =>
      if !Known(log, source) then []
      else (if source == p then [Change(b, -e.Wei())] else []) + (if target == p then [Change(b, e.Wei())] else [])
    case OrderedWithdrawal(_, _, _, _, _) => []
    case ClaimedWithdrawal(b, pool, _, amount) =>
      if pool == p && EffectiveClaim(log, e) then [Change(b, -e.Wei())] else []
    case GatheredAbandoned(b, pool, amount) =>
      if pool == p && Known(log, p) then [Change(b, -e.Wei())] else []
  }

  /** The pool's effective changes, oldest first. */
  ghost function Changes(log: seq<Event>, p: Address): seq<Change> {
    if log == [] then [] else Changes(Init(log), p) + EventChanges(Init(log), Last(log), p)
  }

  ghost function SumUpTo(c: seq<Change>, b: int): int {
    if c == [] then 0 else SumUpTo(Init(c), b) + (if Last(c).block <= b then Last(c).delta else 0)
  }

  ghost function Sum(c: seq<Change>): int {
    if c == [] then 0 else Sum(Init(c)) + Last(c).delta
  }

  ghost function CountAt(c: seq<Change>, b: int): nat {
    if c == [] then 0 else CountAt(Init(c), b) + (if Last(c).block == b then 1 else 0)
  }

  ghost predicate Ordered(c: seq<Change>) {
    forall i, j | 0 <= i < j < |c| :: c[i].block <= c[j].block
  }

  ghost predicate LogOrdered(log: seq<Event>) {
    forall i, j | 0 <= i < j < |log| :: log[i].block <= log[j].block
  }

  // ----- the table against the reference -----

  predicate Covers(k: StakeKey, p: Address, b: int) {
    k.node == p && k.fromBlock <= b <= k.toBlock
  }

  ghost predicate Covered(h: StakeTable, p: Address, b: int) {
    exists k :: k in h && Covers(k, p, b)
  }

  /** Every row lies inside the pool's life and only the row of the last change reaches its end. */
  ghost predicate Shaped(h: StakeTable, p: Address, first: int, last: int) {
    && StakeKey(last, last, p) in h
    && forall k | k in h && k.node == p ::
         && first <= k.fromBlock <= last
         && (k.toBlock < last || k == StakeKey(last, last, p))
         && k.fromBlock <= k.toBlock + 1
  }

  /** The non-empty rows of `p` tile the blocks first..last. */
  ghost predicate Tiled(h: StakeTable, p: Address, first: int, last: int) {
    && (forall b | first <= b <= last :: Covered(h, p, b))
    && (forall k, l, b | k in h && l in h && Covers(k, p, b) && Covers(l, p, b) :: k == l)
  }

  /** Each row carries the stake at the blocks it covers. */
  ghost predicate Valued(h: StakeTable, p: Address, c: seq<Change>) {
    forall k, b | k in h && Covers(k, p, b) :: h[k] == SumUpTo(c, b)
  }

  /** No block has three changes, and an empty row marks exactly a block with two. */
  ghost predicate Marked(h: StakeTable, p: Address, c: seq<Change>) {
    forall b :: CountAt(c, b) <= 2 && (CountAt(c, b) == 2 <==> StakeKey(b, b - 1, p) in h)
  }

  /** Two tables agree on the rows of `p`. */
  ghost predicate SameRows(g: StakeTable, h: StakeTable, p: Address) {
    forall k: StakeKey | k.node == p :: (k in g <==> k in h) && (k in g ==> g[k] == h[k])
  }

  /** The rows of one pool, built change by change. */
  ghost function RowsOf(p: Address, c: seq<Change>): StakeTable {
    if c == [] then map[] else Grow(RowsOf(p, Init(c)), p, Init(c), Last(c))
  }

  ghost function Grow(r: StakeTable, p: Address, c: seq<Change>, ch: Change): StakeTable {
    var point := StakeKey(ch.block, ch.block, p);
    if c == [] then r[point := ch.delta]
    else
      var tip, moved := StakeKey(Last(c).block, Last(c).block, p), StakeKey(Last(c).block, ch.block - 1, p);
      (r - {tip})[moved := Sum(c)][point := Sum(c) + ch.delta]
  }

  /** The rows of `p` say exactly what its changes say. */
  ghost predicate PoolRows(h: StakeTable, p: Address, c: seq<Change>) {
    if c == [] then forall k | k in h :: k.node != p
    else
      && Shaped(h, p, c[0].block, Last(c).block)
      && Tiled(h, p, c[0].block, Last(c).block)
      && Valued(h, p, c)
      && Marked(h, p, c)
      && SameRows(RowsOf(p, c), h, p)
  }

  lemma PoolRowsFrame(g: StakeTable, h: StakeTable, p: Address, c: seq<Change>)
    requires PoolRows(g, p, c) && SameRows(g, h, p)
    ensures PoolRows(h, p, c)
  {
    if c != [] {
      assert SameRows(RowsOf(p, c), g, p);
      forall b | c[0].block <= b <= Last(c).block ensures Covered(h, p, b) {
        assert Covered(g, p, b);
        var k :| k in g && Covers(k, p, b);
        assert k in h && Covers(k, p, b);
      }
    }
  }

  lemma {:induction false} SumUpToAll(c: seq<Change>, b: int)
    requires forall i | 0 <= i < |c| :: c[i].block <= b
    ensures SumUpTo(c, b) == Sum(c)
  {
    if c != [] { SumUpToAll(Init(c), b); }
  }

  lemma {:induction false} CountAtPositive(c: seq<Change>, b: int)
    requires Ordered(c) && c != []
    ensures Last(c).block == b ==> CountAt(c, b) >= 1
    ensures Last(c).block < b ==> CountAt(c, b) == 0
  {
    if |c| > 1 && Last(c).block < b {
      assert Init(c)[|c| - 2] == c[|c| - 2];
      CountAtPositive(Init(c), b);
    }
  }

  /** The query returns the row of the pool's last change. */
  lemma GetLastFinds(h: StakeTable, p: Address, c: seq<Change>)
    requires PoolRows(h, p, c)
    ensures c == [] ==> GetLast(h, p) == None
    ensures c != [] ==> GetLast(h, p) == Some(StakeKey(Last(c).block, Last(c).block, p))
  {
    var rows := LastRows(h, p);
    if c == [] {
      assert rows == {};
    } else {
      var point := StakeKey(Last(c).block, Last(c).block, p);
      assert IsLatestPoint(h, p, point.toBlock);
      assert rows == {point};
    }
  }

  lemma RecordFirst(h: StakeTable, p: Address, ch: Change)
    requires PoolRows(h, p, [])
    ensures var point := StakeKey(ch.block, ch.block, p);
      && RecordChange(h, p, ch.block, ch.delta) == Some(h[point := ch.delta])
      && PoolRows(h[point := ch.delta], p, [ch])
  {
    GetLastFinds(h, p, []);
    var b, point := ch.block, StakeKey(ch.block, ch.block, p);
    var g := h[point := ch.delta];
    assert Init([ch]) == [] && Last([ch]) == ch;
    forall x ensures CountAt([ch], x) == if x == b then 1 else 0 {}
    assert forall k | k in g && k.node == p :: k == point;
    assert Covers(point, p, b);
    assert SumUpTo([ch], b) == SumUpTo(Init([ch]), b) + ch.delta;
    assert RowsOf(p, [ch]) == map[][point := ch.delta] by { assert RowsOf(p, Init([ch])) == map[]; }
  }

  /** The rows of `p` once the change at `b` closed the row of `last` and opened its own. */
  ghost predicate Advanced(h: StakeTable, g: StakeTable, p: Address, last: int, b: int, amount: int) {
    var tip, moved, point := StakeKey(last, last, p), StakeKey(last, b - 1, p), StakeKey(b, b, p);
    && tip in h && moved in g && g[moved] == h[tip]
    && point in g && g[point] == amount
    && (forall k | k in g && k.node == p :: k == point || k == moved || (k in h && k != tip && g[k] == h[k]))
    && (forall k | k in h && k.node == p && k != tip :: k in g)
    && (tip in g ==> tip == moved || tip == point)
  }

  lemma AdvanceTip(h: StakeTable, p: Address, first: int, last: int, b: int, delta: int)
    requires Shaped(h, p, first, last) && last <= b && GetLast(h, p) == Some(StakeKey(last, last, p))
    ensures var r := RecordChange(h, p, b, delta);
      && (r.Some? <==> last < b || StakeKey(b, b - 1, p) !in h)
      && (r.Some? ==> Advanced(h, r.value, p, last, b, h[StakeKey(last, last, p)] + delta))
  {
    hide GetLast;
  }

  lemma RecordAdvances(h: StakeTable, p: Address, c: seq<Change>, ch: Change)
    requires c != [] && PoolRows(h, p, c) && Ordered(c) && Last(c).block <= ch.block
    ensures var r, last := RecordChange(h, p, ch.block, ch.delta), Last(c).block;
      && StakeKey(last, last, p) in h && h[StakeKey(last, last, p)] == Sum(c)
      && (r.Some? <==> CountAt(c, ch.block) < 2)
      && (r.Some? ==> Advanced(h, r.value, p, last, ch.block, Sum(c) + ch.delta))
  {
    var last := Last(c).block;
    GetLastFinds(h, p, c);
    CountAtPositive(c, ch.block);
    SumUpToAll(c, last);
    assert Covers(StakeKey(last, last, p), p, last);
    AdvanceTip(h, p, c[0].block, last, ch.block, ch.delta);
    hide Sum, SumUpTo, CountAt, RowsOf, RecordChange, Advanced, GetLast, Tiled;
  }

  /** A later change closes the last row and opens the next, unless it is the block's third. */
  lemma RecordNext(h: StakeTable, p: Address, c: seq<Change>, ch: Change)
    requires c != [] && PoolRows(h, p, c) && Ordered(c + [ch])
    ensures var r := RecordChange(h, p, ch.block, ch.delta);
      && (r.Some? <==> CountAt(c, ch.block) < 2)
      && (r.Some? ==> PoolRows(r.value, p, c + [ch]))
  {
    var last, b, d, r := Last(c).block, ch.block, c + [ch], RecordChange(h, p, ch.block, ch.delta);
    assert Init(d) == c && Last(d) == ch && d[0] == c[0] && d[|c| - 1] == Last(c);
    assert forall i | 0 <= i < |c| :: d[i] == c[i];
    RecordAdvances(h, p, c, ch);
    CountAtPositive(c, b);
    forall x | last <= x ensures SumUpTo(c, x) == Sum(c) { SumUpToAll(c, x); }
    hide RecordChange, Advanced, Shaped, Tiled, Valued, Marked;
    if r.Some? {
      var g := r.value;
      AdvancedTiles(h, g, p, c[0].block, last, b, Sum(c) + ch.delta);
      forall x ensures SumUpTo(d, x) == SumUpTo(c, x) + if b <= x then ch.delta else 0 {}
      AdvancedValues(h, g, p, c, ch);
      forall x ensures CountAt(d, x) == CountAt(c, x) + if x == b then 1 else 0 {}
      AdvancedMarks(h, g, p, c, ch);
      AdvancedRows(h, g, p, c, ch);
    }
  }

  lemma AdvancedRows(h: StakeTable, g: StakeTable, p: Address, c: seq<Change>, ch: Change)
    requires c != [] && SameRows(RowsOf(p, c), h, p)
    requires Shaped(h, p, c[0].block, Last(c).block) && Last(c).block <= ch.block
    requires h[StakeKey(Last(c).block, Last(c).block, p)] == Sum(c)
    requires Advanced(h, g, p, Last(c).block, ch.block, Sum(c) + ch.delta)
    ensures SameRows(RowsOf(p, c + [ch]), g, p)
  {
    assert RowsOf(p, c + [ch]) == Grow(RowsOf(p, c), p, c, ch) by {
      assert Init(c + [ch]) == c && Last(c + [ch]) == ch;
    }
    GrowAdvances(RowsOf(p, c), h, g, p, c, ch);
  }

  lemma GrowAdvances(r: StakeTable, h: StakeTable, g: StakeTable, p: Address, c: seq<Change>, ch: Change)
    requires c != [] && SameRows(r, h, p)
    requires Shaped(h, p, c[0].block, Last(c).block) && Last(c).block <= ch.block
    requires h[StakeKey(Last(c).block, Last(c).block, p)] == Sum(c)
    requires Advanced(h, g, p, Last(c).block, ch.block, Sum(c) + ch.delta)
    ensures SameRows(Grow(r, p, c, ch), g, p)
  {
    hide Sum, Shaped;
  }

  lemma AdvancedTiles(h: StakeTable, g: StakeTable, p: Address, first: int, last: int, b: int, amount: int)
    requires Shaped(h, p, first, last) && Tiled(h, p, first, last)
    requires first <= last <= b && Advanced(h, g, p, last, b, amount)
    ensures Shaped(g, p, first, b) && Tiled(g, p, first, b)
  {
    var moved, point := StakeKey(last, b - 1, p), StakeKey(b, b, p);
    forall x | first <= x <= b ensures Covered(g, p, x) {
      if x < last {
        assert Covered(h, p, x);
        var k :| k in h && Covers(k, p, x);
        assert k in g && Covers(k, p, x);
      } else if x < b {
        assert Covers(moved, p, x);
      } else {
        assert Covers(point, p, x);
      }
    }
  }

  lemma AdvancedValues(h: StakeTable, g: StakeTable, p: Address, c: seq<Change>, ch: Change)
    requires c != [] && c[0].block <= Last(c).block <= ch.block
    requires Shaped(h, p, c[0].block, Last(c).block) && Valued(h, p, c)
    requires Advanced(h, g, p, Last(c).block, ch.block, Sum(c) + ch.delta)
    requires forall x | Last(c).block <= x :: SumUpTo(c, x) == Sum(c)
    requires forall x :: SumUpTo(c + [ch], x) == SumUpTo(c, x) + if ch.block <= x then ch.delta else 0
    ensures Valued(g, p, c + [ch])
  {
    var last, b := Last(c).block, ch.block;
    assert Covers(StakeKey(last, last, p), p, last);
  }

  lemma AdvancedMarks(h: StakeTable, g: StakeTable, p: Address, c: seq<Change>, ch: Change)
    requires c != [] && c[0].block <= Last(c).block <= ch.block
    requires Shaped(h, p, c[0].block, Last(c).block) && Marked(h, p, c)
    requires Advanced(h, g, p, Last(c).block, ch.block, Sum(c) + ch.delta)
    requires CountAt(c, ch.block) < 2
    requires if ch.block == Last(c).block then CountAt(c, ch.block) >= 1 else CountAt(c, ch.block) == 0
    requires forall x :: CountAt(c + [ch], x) == CountAt(c, x) + if x == ch.block then 1 else 0
    ensures Marked(g, p, c + [ch])
  {
  }

  lemma RecordFrame(h: StakeTable, p: Address, block: int, delta: int, q: Address)
    requires RecordChange(h, p, block, delta).Some? && q != p
    ensures SameRows(h, RecordChange(h, p, block, delta).value, q)
  {
  }
}
