/** Notions every table of the indexer uses. */
module Common {

  /** An account address, as the number its hexadecimal text stands for in either letter case. */
  type Address = int

  /** A value or a database exception that aborts the enclosing block. */
  datatype Option<+T> = None | Some(value: T) {
    predicate IsFailure() {
      None?
    }

    function PropagateFailure<U>(): Option<U>
      requires None?
    {
      None
    }

    function Extract(): T
      requires Some?
    {
      value
    }

    function GetOr(default: T): T {
      if Some? then value else default
    }
  }

  ghost function Pick<T>(s: set<T>): T
    requires s != {}
  {
    var x :| x in s; x
  }

  /** The sum of `f` over a finite set. */
  ghost function SumOver<T>(s: set<T>, f: T -> int): int {
    if s == {} then 0 else f(Pick(s)) + SumOver(s - {Pick(s)}, f)
  }

  lemma {:induction false} SumOverPick<T>(s: set<T>, f: T -> int, x: T)
    requires x in s
    ensures SumOver(s, f) == f(x) + SumOver(s - {x}, f)
  {
    var y := Pick(s);
    if x != y {
      SumOverPick(s - {y}, f, x);
      SumOverPick(s - {x}, f, y);
      assert s - {y} - {x} == s - {x} - {y};
    }
  }

  lemma {:induction false} SumOverSame<T>(s: set<T>, f: T -> int, g: T -> int)
    requires forall x | x in s :: f(x) == g(x)
    ensures SumOver(s, f) == SumOver(s, g)
  {
    if s != {} {
      SumOverSame(s - {Pick(s)}, f, g);
    }
  }

  /** Changing the value at one point, which may be new to the set, changes the sum by the difference. */
  lemma SumOverUpdate<T>(s: set<T>, f: T -> int, g: T -> int, x: T)
    requires forall y | y in s && y != x :: f(y) == g(y)
    requires x !in s ==> f(x) == 0
    ensures SumOver(s + {x}, g) == SumOver(s, f) - f(x) + g(x)
  {
    var rest := s - {x};
    SumOverPick(s + {x}, g, x);
    assert s + {x} - {x} == rest;
    SumOverSame(rest, f, g);
    if x in s {
      SumOverPick(s, f, x);
    } else {
      assert rest == s;
    }
  }
}
