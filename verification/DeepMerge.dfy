/** `deepMerge` of src/localnet/localnet-builder.ts: overlaying one parsed TOML file on another. */
module DeepMerge {
  import opened Common

  /** A parsed value. Numbers, booleans and null are `Scalar`; arrays are not merged, only replaced. */
  datatype Config = Scalar(value: int) | Text(text: string) | List(items: seq<Config>) | Table(entries: Entries)

  datatype Key = Key(name: string)

  type Entries = map<Key, Config>

  function Base(c: Config): Entries {
    if c.Table? then c.entries else map[]
  }

  function Digits(n: nat): string {
    var last := ["0123456789"[n % 10]];
    if n < 10 then last else Digits(n / 10) + last
  }

  /** The number a decimal text denotes. */
  ghost function Decimal(s: string): int {
    if s == [] then 0 else 10 * Decimal(s[..|s| - 1]) + (s[|s| - 1] as int - '0' as int)
  }

  lemma LastDigit(d: nat)
    requires d < 10
    ensures "0123456789"[d] as int == '0' as int + d && '0' <= "0123456789"[d] <= '9'
  {
  }

  /** An index is written in decimal, without leading zeros. */
  lemma {:induction false} DigitsDecimal(n: nat)
    ensures Decimal(Digits(n)) == n && Digits(n) != []
    ensures forall c | c in Digits(n) :: '0' <= c <= '9'
    ensures Digits(n)[0] == '0' <==> n == 0
  {
    var last := ["0123456789"[n % 10]];
    LastDigit(n % 10);
    if n < 10 {
      assert last[..0] == [];
    } else {
      DigitsDecimal(n / 10);
      var early := Digits(n / 10);
      assert Digits(n) == early + last && (early + last)[..|early|] == early;
      hide Digits;
    }
  }

  function Numbered(items: seq<Config>): Entries {
    if items == [] then map[]
    else
      var n := |items| - 1;
      Numbered(items[..n])[Key(Digits(n)) := items[n]]
  }

  /** `{ ...(value || {}) }`: an array or a string is spread into entries whose keys are its indices. */
  function Spread(c: Config): Entries {
    match c
    case Scalar(_) => map[]
    case Text(s) => Numbered(seq(|s|, i requires 0 <= i < |s| => Text([s[i]])))
    case List(items) => Numbered(items)
    case Table(entries) => entries
  }

  /** Each item stands under its index, and nothing else does. */
  lemma {:induction false} NumberedItems(items: seq<Config>)
    ensures forall i | 0 <= i < |items| ::
      Key(Digits(i)) in Numbered(items) && Numbered(items)[Key(Digits(i))] == items[i]
    ensures forall k | k in Numbered(items) :: exists i :: 0 <= i < |items| && k == Key(Digits(i))
  {
    hide Digits;
    if items != [] {
      var n := |items| - 1;
      NumberedItems(items[..n]);
      DigitsDecimal(n);
      forall i | 0 <= i < n ensures Digits(i) != Digits(n) { DigitsDecimal(i); }
      forall k | k in Numbered(items) ensures exists i :: 0 <= i < |items| && k == Key(Digits(i)) {
        if k != Key(Digits(n)) {
          var i :| 0 <= i < n && k == Key(Digits(i));
        }
      }
    }
  }

  /** An array is spread item by item, a string character by character. */
  lemma SpreadByIndex(items: seq<Config>, s: string, i: nat)
    ensures i < |items| ==> Key(Digits(i)) in Spread(List(items)) && Spread(List(items))[Key(Digits(i))] == items[i]
    ensures i < |s| ==> Key(Digits(i)) in Spread(Text(s)) && Spread(Text(s))[Key(Digits(i))] == Text([s[i]])
  {
    NumberedItems(items);
    NumberedItems(seq(|s|, j requires 0 <= j < |s| => Text([s[j]])));
  }

  function BaseAt(a: Entries, k: Key): Entries {
    if k in a then Spread(a[k]) else map[]
  }

  function Merge(a: Entries, b: Config): Entries
    decreases b
  {
    a + map k | k in Base(b) :: if Base(b)[k].Table? then Table(Merge(BaseAt(a, k), Base(b)[k])) else Base(b)[k]
  }

  // ----- paths -----

  function Lookup(c: Config, path: seq<Key>): Option<Config>
    decreases path
  {
    if path == [] then Some(c)
    else if path[0] in Spread(c) then Lookup(Spread(c)[path[0]], path[1..])
    else None
  }

  /** The tree has nothing at the path and no leaf above it. */
  predicate Untouched(b: Config, path: seq<Key>) {
    && path != []
    && (path[0] in Base(b) ==> Base(b)[path[0]].Table? && Untouched(Base(b)[path[0]], path[1..]))
  }

  /** Every leaf of the second tree wins. */
  lemma {:induction false} SecondWins(a: Entries, b: Config, path: seq<Key>)
    requires b.Table? && path != [] && Lookup(b, path).Some? && !Lookup(b, path).value.Table?
    ensures Lookup(Table(Merge(a, b)), path) == Lookup(b, path)
    decreases path
  {
    var k := path[0];
    if Base(b)[k].Table? {
      SecondWins(BaseAt(a, k), Base(b)[k], path[1..]);
    }
  }

  /** A path the second tree does not mention keeps what the first has there. */
  lemma {:induction false} UntouchedKept(a: Entries, b: Config, path: seq<Key>)
    requires Untouched(b, path)
    ensures Lookup(Table(Merge(a, b)), path) == Lookup(Table(a), path)
    decreases path
  {
    var k := path[0];
    if k in Base(b) {
      UntouchedKept(BaseAt(a, k), Base(b)[k], path[1..]);
    }
  }

  // ----- laws -----

  lemma {:induction false} MergeIntoEmpty(b: Config)
    ensures Merge(map[], b) == Base(b)
    decreases b
  {
    forall k | k in Base(b) && Base(b)[k].Table? ensures Merge(map[], Base(b)[k]) == Base(Base(b)[k]) {
      MergeIntoEmpty(Base(b)[k]);
    }
  }

  /** Merging the same tree again changes nothing. */
  lemma {:induction false} Idempotent(a: Entries, b: Config)
    ensures Merge(Merge(a, b), b) == Merge(a, b)
    decreases b
  {
    forall k | k in Base(b) && Base(b)[k].Table?
      ensures Merge(BaseAt(Merge(a, b), k), Base(b)[k]) == Merge(BaseAt(a, k), Base(b)[k])
    {
      Idempotent(BaseAt(a, k), Base(b)[k]);
    }
  }

  /** Everything in the first tree is replaced by the second. */
  ghost predicate Covered(a: Entries, b: Config)
    decreases b
  {
    forall k | k in a :: k in Base(b) && (Base(b)[k].Table? ==> Covered(Spread(a[k]), Base(b)[k]))
  }

  lemma {:induction false} CoveredVanishes(a: Entries, b: Config)
    ensures Covered(a, b) <==> Merge(a, b) == Base(b)
    decreases b
  {
    var m := Merge(a, b);
    forall k | k in Base(b) && Base(b)[k].Table?
      ensures Covered(BaseAt(a, k), Base(b)[k]) <==> m[k] == Base(b)[k]
    {
      CoveredVanishes(BaseAt(a, k), Base(b)[k]);
      assert m[k] == Table(Merge(BaseAt(a, k), Base(b)[k]));
      assert Base(b)[k] == Table(Base(Base(b)[k]));
    }
    if m == Base(b) {
      forall k | k in a ensures k in Base(b) && (Base(b)[k].Table? ==> Covered(Spread(a[k]), Base(b)[k])) {
        assert k in m;
      }
    }
    if Covered(a, b) {
      forall k | k in m ensures k in Base(b) && m[k] == Base(b)[k] {}
    }
  }

  /** Where the second tree has a leaf under a table of the third, the two replace all the first has there. */
  ghost predicate NothingReturns(a: Entries, b: Config, c: Config)
    decreases c
  {
    forall k | k in Base(c) && Base(c)[k].Table? && k in Base(b) ::
      if Base(b)[k].Table? then NothingReturns(BaseAt(a, k), Base(b)[k], Base(c)[k])
      else Covered(BaseAt(a, k), Table(Merge(Spread(Base(b)[k]), Base(c)[k])))
  }

  /** What the merge has at one key. */
  ghost function MergedAt(a: Entries, b: Config, k: Key): Option<Config> {
    if k in Base(b) then Some(if Base(b)[k].Table? then Table(Merge(BaseAt(a, k), Base(b)[k])) else Base(b)[k])
    else if k in a then Some(a[k])
    else None
  }

  ghost function At(m: Entries, k: Key): Option<Config> {
    if k in m then Some(m[k]) else None
  }

  lemma MergeAt(a: Entries, b: Config, k: Key)
    ensures At(Merge(a, b), k) == MergedAt(a, b, k)
    ensures BaseAt(Merge(a, b), k) ==
      if k !in Base(b) then BaseAt(a, k)
      else if Base(b)[k].Table? then Merge(BaseAt(a, k), Base(b)[k]) else Spread(Base(b)[k])
  {
  }

  ghost predicate AgreesAt(a: Entries, b: Config, c: Config, k: Key) {
    k in Base(c) && Base(c)[k].Table? && k in Base(b) ==>
      if Base(b)[k].Table? then NothingReturns(BaseAt(a, k), Base(b)[k], Base(c)[k])
      else Covered(BaseAt(a, k), Table(Merge(Spread(Base(b)[k]), Base(c)[k])))
  }

  lemma AgreesEverywhere(a: Entries, b: Config, c: Config)
    ensures NothingReturns(a, b, c) <==> forall k :: AgreesAt(a, b, c, k)
  {
    if forall k :: AgreesAt(a, b, c, k) {
      forall k | k in Base(c) && Base(c)[k].Table? && k in Base(b)
        ensures if Base(b)[k].Table? then NothingReturns(BaseAt(a, k), Base(b)[k], Base(c)[k])
                else Covered(BaseAt(a, k), Table(Merge(Spread(Base(b)[k]), Base(c)[k])))
      {
        assert AgreesAt(a, b, c, k);
      }
    }
  }

  lemma SameEntries(m: Entries, n: Entries)
    ensures m == n <==> forall k :: At(m, k) == At(n, k)
  {
    if forall k :: At(m, k) == At(n, k) {
      forall k ensures (k in m <==> k in n) && (k in m ==> m[k] == n[k]) { assert At(m, k) == At(n, k); }
    }
  }

  /** The two ways to merge three trees agree exactly when no leaf of the second hides what the first brings back. */
  lemma {:induction false} AssociativeExactly(a: Entries, b: Config, c: Config)
    ensures Merge(Merge(a, b), c) == Merge(a, Table(Merge(Base(b), c))) <==> NothingReturns(a, b, c)
    decreases c
  {
    hide Merge, NothingReturns, At;
    var left, right := Merge(Merge(a, b), c), Merge(a, Table(Merge(Base(b), c)));
    forall k ensures At(left, k) == At(right, k) <==> AgreesAt(a, b, c, k) {
      KeyAgrees(a, b, c, k);
    }
    SameEntries(left, right);
    AgreesEverywhere(a, b, c);
  }

  lemma KeyAgrees(a: Entries, b: Config, c: Config, k: Key)
    ensures At(Merge(Merge(a, b), c), k) == At(Merge(a, Table(Merge(Base(b), c))), k) <==> AgreesAt(a, b, c, k)
    decreases c, 0
  {
    hide Merge, NothingReturns, Covered;
    var ab, bc := Merge(a, b), Merge(Base(b), c);
    MergeAt(a, b, k);
    MergeAt(Base(b), c, k);
    MergeAt(ab, c, k);
    MergeAt(a, Table(bc), k);
    if k in Base(c) && Base(c)[k].Table? {
      var ck := Base(c)[k];
      if k in Base(b) && Base(b)[k].Table? {
        AssociativeExactly(BaseAt(a, k), Base(b)[k], ck);
      } else {
        if k in Base(b) {
          CoveredVanishes(BaseAt(a, k), Table(Merge(Spread(Base(b)[k]), ck)));
        } else {
          MergeIntoEmpty(ck);
        }
      }
    }
  }

  lemma MergeNothing(a: Entries)
    ensures Merge(a, Table(map[])) == a
  {
  }

  /** A leaf over a table under a table: merged from the left x is gone, merged from the right it is back. */
  lemma NotAssociative(k: Key, x: Key)
    ensures var a, b := map[k := Table(map[x := Scalar(1)])], Table(map[k := Scalar(5)]);
      var c := Table(map[k := Table(map[])]);
      && At(Merge(Merge(a, b), c), k) == Some(Table(map[]))
      && At(Merge(a, Table(Merge(Base(b), c))), k) == Some(Table(map[x := Scalar(1)]))
  {
    var a, b, c := map[k := Table(map[x := Scalar(1)])], Table(map[k := Scalar(5)]), Table(map[k := Table(map[])]);
    MergeNothing(map[]);
    MergeNothing(map[x := Scalar(1)]);
    MergeAt(a, b, k);
    MergeAt(Merge(a, b), c, k);
    MergeAt(Base(b), c, k);
    MergeAt(a, Table(Merge(Base(b), c)), k);
    hide Merge;
  }

  // ----- the method -----

  /** The recursive copy, filled key by key. */
  method DeepMerge(obj1: Entries, obj2: Config) returns (result: Entries)
    ensures result == Merge(obj1, obj2)
    decreases obj2
  {
    result := obj1;
    var rest := Base(obj2).Keys;
    while rest != {}
      invariant rest <= Base(obj2).Keys
      invariant forall k | k in rest :: At(result, k) == At(obj1, k)
      invariant forall k | k !in rest :: At(result, k) == MergedAt(obj1, obj2, k)
      decreases rest
    {
      hide Merge;
      var key :| key in rest;
      var value := Base(obj2)[key];
      if value.Table? {
        var inner := DeepMerge(BaseAt(obj1, key), value);
        result := result[key := Table(inner)];
      } else {
        result := result[key := value];
      }
      rest := rest - {key};
    }
    forall k { MergeAt(obj1, obj2, k); }
    hide Merge, MergedAt, At;
    SameEntries(result, Merge(obj1, obj2));
  }
}
