/** Filtering a table, the shape of every `where` query and `count` in the services. */
module Seqs {

  /** The rows of `s` that satisfy `f`, in table order. */
  function Filter<T>(s: seq<T>, f: T -> bool): (r: seq<T>)
    ensures |r| <= |s|
  {
    if s == [] then []
    else if f(s[0]) then [s[0]] + Filter(s[1..], f)
    else Filter(s[1..], f)
  }

  /** A row is selected exactly when it is in the table and satisfies the filter. */
  lemma {:induction false} FilterMembers<T(!new)>(s: seq<T>, f: T -> bool)
    ensures forall x :: x in Filter(s, f) <==> x in s && f(x)
  {
    if s != [] {
      FilterMembers(s[1..], f);
      assert s == [s[0]] + s[1..];
    }
  }

  /** Filtering distributes over appending rows to a table. */
  lemma {:induction false} FilterAppend<T>(a: seq<T>, b: seq<T>, f: T -> bool)
    ensures Filter(a + b, f) == Filter(a, f) + Filter(b, f)
  {
    if a == [] {
      assert a + b == b;
    } else {
      assert (a + b)[0] == a[0] && (a + b)[1..] == a[1..] + b;
      FilterAppend(a[1..], b, f);
    }
  }

  /** A stricter filter keeps no more rows than a looser one. */
  lemma {:induction false} FilterStricter<T(!new)>(s: seq<T>, f: T -> bool, g: T -> bool)
    requires forall x :: f(x) ==> g(x)
    ensures |Filter(s, f)| <= |Filter(s, g)|
  {
    if s != [] {
      FilterStricter(s[1..], f, g);
    }
  }

  /** A filter every row satisfies keeps the whole table. */
  lemma {:induction false} FilterKeepsAll<T>(s: seq<T>, f: T -> bool)
    requires forall i :: 0 <= i < |s| ==> f(s[i])
    ensures Filter(s, f) == s
  {
    if s != [] {
      FilterKeepsAll(s[1..], f);
    }
  }

  /** A filter no row satisfies selects nothing. */
  lemma {:induction false} FilterSelectsNone<T>(s: seq<T>, f: T -> bool)
    requires forall i :: 0 <= i < |s| ==> !f(s[i])
    ensures Filter(s, f) == []
  {
    if s != [] {
      FilterSelectsNone(s[1..], f);
    }
  }

  /** The positions of the rows of `s` that satisfy `f`. */
  function Positions<T>(s: seq<T>, f: T -> bool): set<nat> {
    set i: nat | i < |s| && f(s[i])
  }

  /** A `count` query: the rows selected are as many as the positions that satisfy the filter. */
  lemma {:induction false} FilterCountsPositions<T>(s: seq<T>, f: T -> bool)
    ensures |Filter(s, f)| == |Positions(s, f)|
  {
    if s != [] {
      var n := |s| - 1;
      FilterCountsPositions(s[..n], f);
      assert s == s[..n] + [s[n]];
      FilterAppend(s[..n], [s[n]], f);
      assert [s[n]][1..] == [];
      if f(s[n]) {
        assert Positions(s, f) == Positions(s[..n], f) + {n};
      } else {
        assert Positions(s, f) == Positions(s[..n], f);
      }
    }
  }
}
