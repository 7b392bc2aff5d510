/** Sequence identities, least elements, and ascending listings of finite integer sets. */
module Collections {

  lemma DropConcat<T>(a: seq<T>, b: seq<T>, n: nat)
    requires n <= |a|
    ensures (a + b)[n..] == a[n..] + b
  {
  }

  lemma Associate<T>(a: seq<T>, b: seq<T>, c: seq<T>)
    ensures a + (b + c) == a + b + c
  {
  }

  predicate IsLeast(m: int, s: set<int>) {
    m in s && forall x <- s :: m <= x
  }

  lemma Inhabited(s: set<int>)
    requires s != {}
    ensures exists m :: m in s
  {
    if forall m :: m !in s {
      assert false;
    }
  }

  lemma {:induction false} LeastExists(s: set<int>)
    requires s != {}
    ensures exists m :: IsLeast(m, s)
    decreases |s|
  {
    Inhabited(s);
    var m :| m in s;
    assert s == (s - {m}) + {m};
    if s - {m} == {} {
      assert IsLeast(m, s);
    } else {
      LeastExists(s - {m});
      var n :| IsLeast(n, s - {m});
      assert IsLeast(if n < m then n else m, s);
    }
  }

  ghost function Least(s: set<int>): (m: int)
    requires s != {}
    ensures IsLeast(m, s)
  {
    LeastExists(s);
    var m :| IsLeast(m, s);
    m
  }

  predicate Ascending(a: seq<int>) {
    forall i, j :: 0 <= i < j < |a| ==> a[i] < a[j]
  }

  /** The elements of a set, in ascending order. */
  ghost function Listing(s: set<int>): seq<int> {
    if s == {} then [] else [Least(s)] + Listing(s - {Least(s)})
  }

  lemma {:induction false} ListingIsAscending(s: set<int>)
    ensures Ascending(Listing(s))
    ensures forall x :: x in Listing(s) <==> x in s
    ensures |Listing(s)| == |s|
  {
    if s != {} {
      var least, rest := Least(s), Listing(s - {Least(s)});
      ListingIsAscending(s - {least});
      AscendingFrom(least, rest);
      assert s == (s - {least}) + {least};
      assert Listing(s) == [least] + rest;
      forall x ensures x in Listing(s) <==> x in s {
        assert x in Listing(s) <==> x == least || x in rest;
      }
    }
  }

  lemma AscendingFrom(first: int, rest: seq<int>)
    requires Ascending(rest) && forall x <- rest :: first < x
    ensures Ascending([first] + rest)
  {
    assert forall i | 0 <= i < |rest| :: rest[i] in rest;
  }

  /** Go's collect-and-sort over a map's keys. */
  method Sorted(s: set<int>) returns (a: seq<int>)
    ensures a == Listing(s)
  {
    a := [];
    var rest := s;
    while rest != {}
      invariant a + Listing(rest) == Listing(s)
    {
      LeastExists(rest);
      var m :| m in rest && IsLeast(m, rest);
      assert a + Listing(rest) == (a + [m]) + Listing(rest - {m});
      a, rest := a + [m], rest - {m};
    }
  }
}
