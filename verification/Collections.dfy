/** Small vocabulary shared by the models: optional values, and the ascending traversal of a
    finite set of integers that `std::set` and `std::map` iterators perform. */
module Collections {

  datatype Option<+T> = None | Some(value: T)

  ghost predicate NoDup<T>(s: seq<T>) { forall i, j :: 0 <= i < j < |s| ==> s[i] != s[j] }

  function SetOf<T(==)>(s: seq<T>): set<T> { set x | x in s }

  function Reversed<T>(s: seq<T>): seq<T> {
    if s == [] then [] else [s[|s| - 1]] + Reversed(s[..|s| - 1])
  }

  lemma ReversedAppend<T>(s: seq<T>, x: T)
    ensures Reversed(s + [x]) == [x] + Reversed(s)
  {
    assert (s + [x])[..|s|] == s;
  }

  ghost predicate StrictlyAscending(s: seq<int>) {
    forall i, j :: 0 <= i < j < |s| ==> s[i] < s[j]
  }

  ghost predicate IsLeast(m: int, s: set<int>) { m in s && forall x :: x in s ==> m <= x }

  lemma Pick<T>(s: set<T>) returns (x: T)
    requires s != {}
    ensures x in s
  {
    x :| x in s;
  }

  lemma {:induction false} HasLeast(s: set<int>)
    requires s != {}
    ensures exists m :: IsLeast(m, s)
    decreases s
  {
    var m := Pick(s);
    if s == {m} {
      assert IsLeast(m, s);
    } else {
      HasLeast(s - {m});
      var n :| IsLeast(n, s - {m});
      assert IsLeast(if m < n then m else n, s) by {
        forall x | x in s ensures (if m < n then m else n) <= x {
          assert x == m || x in s - {m};
        }
      }
    }
  }

  lemma AscendingCons(m: int, s: set<int>, rest: seq<int>)
    requires IsLeast(m, s)
    requires StrictlyAscending(rest) && |rest| == |s - {m}| && forall x :: x in rest <==> x in s - {m}
    ensures StrictlyAscending([m] + rest) && |[m] + rest| == |s|
    ensures forall x :: x in [m] + rest <==> x in s
  {
    var r := [m] + rest;
    forall i, j | 0 <= i < j < |r| ensures r[i] < r[j] {
      assert r[j] == rest[j - 1] && rest[j - 1] in s - {m};
    }
    forall x ensures x in r <==> x in s {
      if x in s { assert x == m || x in rest; }
    }
  }

  /** The elements of `s` in the order an ordered container visits them. */
  function Ascending(s: set<int>): (r: seq<int>)
    ensures StrictlyAscending(r)
    ensures |r| == |s|
    ensures forall x :: x in r <==> x in s
  {
    if s == {} then [] else
      HasLeast(s);
      var m :| m in s && forall x :: x in s ==> m <= x;
      var rest := Ascending(s - {m});
      AscendingCons(m, s, rest);
      [m] + rest
  }

  lemma SomeListed(s: seq<int>)
    ensures s != [] ==> exists x: int :: x in s
  {
    if s != [] {
      var x := s[0];
      assert x in s;
    }
  }

  /** There is only one way to list a set in order. */
  lemma {:induction false} AscendingUnique(a: seq<int>, b: seq<int>)
    requires StrictlyAscending(a) && StrictlyAscending(b) && forall x :: x in a <==> x in b
    ensures a == b
  {
    if a == [] {
      SomeListed(b);
    } else {
      assert a[0] in b && b != [] && b[0] in a;
      assert a[0] == b[0] by {
        var i :| 0 <= i < |b| && b[i] == a[0];
        var j :| 0 <= j < |a| && a[j] == b[0];
      }
      forall x ensures x in a[1..] <==> x in b[1..] {
        if x in a[1..] { assert x in a && x != a[0]; assert x in b; assert b == [b[0]] + b[1..]; }
        if x in b[1..] { assert x in b && x != b[0]; assert x in a; assert a == [a[0]] + a[1..]; }
      }
      AscendingUnique(a[1..], b[1..]);
      assert a == [a[0]] + a[1..] && b == [b[0]] + b[1..];
    }
  }

  /** A set of integers drawn from an interval is no larger than the interval. */
  lemma {:induction false} RangeBound(s: set<int>, lo: int, hi: int)
    requires forall x :: x in s ==> lo <= x < hi
    ensures |s| <= if lo < hi then hi - lo else 0
    decreases hi - lo
  {
    if lo >= hi {
      assert s == {};
    } else {
      var t := s - {hi - 1};
      RangeBound(t, lo, hi - 1);
      assert s <= t + {hi - 1};
      if hi - 1 in s { assert |s| == |t| + 1; } else { assert s == t; }
    }
  }

  lemma {:induction false} SubsetSize<T>(a: set<T>, b: set<T>)
    requires a <= b
    ensures |a| <= |b|
  {
    assert b == a + (b - a);
  }
}
