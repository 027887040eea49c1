/**
 * The ascending key order in which the program's `std::map`s are visited:
 * ints by value, (mod, file) pairs lexicographically.
 */
module Ordering {

  predicate PairLess(a: (int, int), b: (int, int)) {
    a.0 < b.0 || (a.0 == b.0 && a.1 < b.1)
  }

  predicate StrictlyAscending(r: seq<(int, int)>) {
    forall i, j :: 0 <= i < j < |r| ==> PairLess(r[i], r[j])
  }

  /** A non-empty set of ints has a member. */
  lemma HasMember(s: set<int>)
    requires s != {}
    ensures exists x :: x in s
  {
    if forall x :: x !in s {
      assert false;
    }
  }

  /** Every non-empty finite set of ints has a least element. */
  lemma {:induction false} MinIntExists(s: set<int>)
    requires s != {}
    ensures exists m :: m in s && forall x :: x in s ==> m <= x
    decreases |s|
  {
    HasMember(s);
    var y :| y in s;
    var rest := s - {y};
    if rest != {} {
      MinIntExists(rest);
      var m :| m in rest && forall x :: x in rest ==> m <= x;
      var least := if y < m then y else m;
      assert forall x :: x in s ==> least <= x by {
        forall x | x in s ensures least <= x {
          if x != y {
            assert x in rest;
          }
        }
      }
    } else {
      assert forall x :: x in s ==> x == y;
    }
  }

  lemma PairLessTransitive(a: (int, int), b: (int, int), c: (int, int))
    requires PairLess(a, b) && PairLess(b, c)
    ensures PairLess(a, c)
  {
  }

  lemma PairLessTotal(a: (int, int), b: (int, int))
    requires a != b && !PairLess(a, b)
    ensures PairLess(b, a)
  {
  }

  /** Every non-empty finite set of pairs has a lexicographically least element. */
  lemma {:induction false} MinPairExists(s: set<(int, int)>)
    requires s != {}
    ensures exists m :: m in s && forall x :: x in s && x != m ==> PairLess(m, x)
    decreases |s|
  {
    var y :| y in s;
    var rest := s - {y};
    if rest == {} {
      assert s == rest + {y};
      return;
    }
    MinPairExists(rest);
    var m :| m in rest && forall x :: x in rest && x != m ==> PairLess(m, x);
    assert m != y;
    if PairLess(y, m) {
      forall x | x in s && x != y ensures PairLess(y, x) {
        if x != m {
          assert x in rest;
          PairLessTransitive(y, m, x);
        }
      }
      assert y in s;
    } else {
      PairLessTotal(y, m);
      forall x | x in s && x != m ensures PairLess(m, x) {
        if x != y {
          assert x in rest;
        }
      }
      assert m in s;
    }
  }

  /** The elements of a finite set of pairs, in ascending order. */
  ghost function SortedPairs(s: set<(int, int)>): (r: seq<(int, int)>)
    ensures StrictlyAscending(r)
    ensures forall k :: k in r <==> k in s
    ensures |r| == |s|
    decreases |s|
  {
    if s == {} then []
    else
      MinPairExists(s);
      var m :| m in s && forall x :: x in s && x != m ==> PairLess(m, x);
      var rest := SortedPairs(s - {m});
      assert forall i :: 0 <= i < |rest| ==> PairLess(m, rest[i]) by {
        forall i | 0 <= i < |rest| ensures PairLess(m, rest[i]) {
          assert rest[i] in s - {m};
        }
      }
      [m] + rest
  }

  /** Two ascending sequences of the same elements are the same sequence. */
  lemma {:induction false} AscendingUnique(a: seq<(int, int)>, b: seq<(int, int)>)
    requires StrictlyAscending(a) && StrictlyAscending(b)
    requires forall k :: k in a <==> k in b
    ensures a == b
    decreases |a|
  {
    assert a == [] <==> b == [] by {
      assert a != [] ==> a[0] in b;
      assert b != [] ==> b[0] in a;
    }
    if a != [] {
      assert a[0] == b[0] by {
        assert b[0] in b && a[0] in a;
        assert b[0] in a && a[0] in b;
        var i :| 0 <= i < |a| && a[i] == b[0];
        var j :| 0 <= j < |b| && b[j] == a[0];
        assert i == 0 || j == 0;
      }
      forall k ensures k in a[1..] <==> k in b[1..] {
        if k in a[1..] {
          var i :| 1 <= i < |a| && a[i] == k;
          assert PairLess(a[0], k);
          assert k in b && k != b[0];
          var j :| 0 <= j < |b| && b[j] == k;
          assert j != 0;
          assert b[1..][j - 1] == k;
        }
        if k in b[1..] {
          var j :| 1 <= j < |b| && b[j] == k;
          assert PairLess(b[0], k);
          assert k in a && k != a[0];
          var i :| 0 <= i < |a| && a[i] == k;
          assert i != 0;
          assert a[1..][i - 1] == k;
        }
      }
      AscendingUnique(a[1..], b[1..]);
      assert a == [a[0]] + a[1..] && b == [b[0]] + b[1..];
    }
  }
}
