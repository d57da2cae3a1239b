/** The library's stable sort and consecutive-duplicate removal, with what callers rely on. */
module Sorting {

  ghost predicate TotalPreorder<T(!new)>(le: (T, T) -> bool) {
    && (forall a, b :: le(a, b) || le(b, a))
    && (forall a, b, c :: le(a, b) && le(b, c) ==> le(a, c))
  }

  ghost predicate SortedBy<T>(xs: seq<T>, le: (T, T) -> bool) {
    forall i, j :: 0 <= i < j < |xs| ==> le(xs[i], xs[j])
  }

  function InsertBy<T(!new)>(x: T, xs: seq<T>, le: (T, T) -> bool): (r: seq<T>)
    ensures multiset(r) == multiset(xs) + multiset{x}
    ensures forall y :: y in r <==> y == x || y in xs
  {
    if xs == [] then [x]
    else if le(x, xs[0]) then [x] + xs
    else
      assert xs == [xs[0]] + xs[1..];
      [xs[0]] + InsertBy(x, xs[1..], le)
  }

  /** Stable: an element is inserted in front of the later ones it ties with. */
  function SortBy<T(!new)>(xs: seq<T>, le: (T, T) -> bool): (r: seq<T>)
    ensures multiset(r) == multiset(xs)
    ensures forall y :: y in r <==> y in xs
  {
    if xs == [] then []
    else
      assert xs == [xs[0]] + xs[1..];
      InsertBy(xs[0], SortBy(xs[1..], le), le)
  }

  lemma {:induction false} InsertBySorted<T(!new)>(x: T, xs: seq<T>, le: (T, T) -> bool)
    requires TotalPreorder(le) && SortedBy(xs, le)
    ensures SortedBy(InsertBy(x, xs, le), le)
  {
    if xs != [] && !le(x, xs[0]) {
      InsertBySorted(x, xs[1..], le);
      var r := InsertBy(x, xs[1..], le);
      forall y | y in r
        ensures le(xs[0], y)
      {
      }
    }
  }

  lemma {:induction false} SortBySorted<T(!new)>(xs: seq<T>, le: (T, T) -> bool)
    requires TotalPreorder(le)
    ensures SortedBy(SortBy(xs, le), le)
  {
    if xs != [] {
      SortBySorted(xs[1..], le);
      InsertBySorted(xs[0], SortBy(xs[1..], le), le);
    }
  }

  function Dedup<T(==,!new)>(xs: seq<T>): (r: seq<T>)
    ensures forall y :: y in r <==> y in xs
    ensures xs != [] ==> r != [] && r[0] == xs[0]
  {
    if |xs| < 2 then xs
    else
      assert xs == [xs[0]] + xs[1..];
      if xs[0] == xs[1] then Dedup(xs[1..])
      else [xs[0]] + Dedup(xs[1..])
  }

  /** After sorting by an antisymmetric order, no duplicates are left. */
  lemma {:induction false} DedupDistinct<T(!new)>(xs: seq<T>, le: (T, T) -> bool)
    requires SortedBy(xs, le) && forall a, b :: le(a, b) && le(b, a) ==> a == b
    ensures SortedBy(Dedup(xs), le)
    ensures forall i, j :: 0 <= i < j < |Dedup(xs)| ==> Dedup(xs)[i] != Dedup(xs)[j]
  {
    if |xs| >= 2 {
      var t := Dedup(xs[1..]);
      DedupDistinct(xs[1..], le);
      forall y | y in t
        ensures le(xs[0], y) && (xs[0] != xs[1] ==> y != xs[0])
      {
        var k :| 0 <= k < |xs[1..]| && xs[1..][k] == y;
        assert le(xs[0], xs[k+1]);
        if k > 0 {
          assert le(xs[1], xs[k+1]);
        }
        assert le(xs[0], xs[1]);
      }
    }
  }

  // ---------- lists without repetition ----------

  ghost predicate NoRepeat<T(!new)>(xs: seq<T>) {
    forall i, j :: 0 <= i < j < |xs| ==> xs[i] != xs[j]
  }

  lemma {:induction false} InsertNoRepeat<T(!new)>(x: T, xs: seq<T>, le: (T, T) -> bool)
    requires NoRepeat(xs) && x !in xs
    ensures NoRepeat(InsertBy(x, xs, le))
  {
    if xs != [] && !le(x, xs[0]) {
      InsertNoRepeat(x, xs[1..], le);
      var r := InsertBy(x, xs[1..], le);
      assert xs[0] !in xs[1..];
    }
  }

  lemma {:induction false} SortNoRepeat<T(!new)>(xs: seq<T>, le: (T, T) -> bool)
    requires NoRepeat(xs)
    ensures NoRepeat(SortBy(xs, le))
  {
    if xs != [] {
      SortNoRepeat(xs[1..], le);
      InsertNoRepeat(xs[0], SortBy(xs[1..], le), le);
    }
  }

  lemma HeadLeast<T(!new)>(xs: seq<T>, le: (T, T) -> bool, x: T)
    requires SortedBy(xs, le) && x in xs
    ensures xs != [] && (x == xs[0] || le(xs[0], x))
  {
    var i :| 0 <= i < |xs| && xs[i] == x;
  }

  lemma HeadIn<T>(xs: seq<T>)
    ensures xs == [] || xs[0] in xs
  {
  }

  /** A set has one sorted list without repetition. */
  lemma {:induction false} SortedUnique<T(!new)>(xs: seq<T>, ys: seq<T>, le: (T, T) -> bool)
    requires SortedBy(xs, le) && SortedBy(ys, le) && NoRepeat(xs) && NoRepeat(ys)
    requires forall x :: x in xs <==> x in ys
    requires forall a, b :: le(a, b) && le(b, a) ==> a == b
    ensures xs == ys
  {
    HeadIn(xs);
    HeadIn(ys);
    if xs != [] {
      HeadLeast(ys, le, xs[0]);
      HeadLeast(xs, le, ys[0]);
      assert xs == [xs[0]] + xs[1..] && ys == [ys[0]] + ys[1..];
      forall x
        ensures x in xs[1..] <==> x in ys[1..]
      {
        assert x in xs <==> x == xs[0] || x in xs[1..];
        assert x in ys <==> x == ys[0] || x in ys[1..];
      }
      SortedUnique(xs[1..], ys[1..], le);
    }
  }

  // ---------- what sorting does to two elements ----------

  ghost predicate Before<T>(xs: seq<T>, a: T, b: T) {
    exists k, l :: 0 <= k < l < |xs| && xs[k] == a && xs[l] == b
  }

  lemma {:induction false} InsertBefore<T(!new)>(x: T, xs: seq<T>, le: (T, T) -> bool, a: T, b: T)
    requires Before(xs, a, b)
    ensures Before(InsertBy(x, xs, le), a, b)
  {
    var k, l :| 0 <= k < l < |xs| && xs[k] == a && xs[l] == b;
    var r := InsertBy(x, xs, le);
    if le(x, xs[0]) {
      assert r[k+1] == a && r[l+1] == b;
    } else {
      var t := InsertBy(x, xs[1..], le);
      if k == 0 {
        assert b in t by { assert xs[1..][l-1] == b; }
        var q :| 0 <= q < |t| && t[q] == b;
        assert r[0] == a && r[q+1] == b;
      } else {
        assert xs[1..][k-1] == a && xs[1..][l-1] == b;
        InsertBefore(x, xs[1..], le, a, b);
        var i, j :| 0 <= i < j < |t| && t[i] == a && t[j] == b;
        assert r[i+1] == a && r[j+1] == b;
      }
    }
  }

  lemma {:induction false} InsertedBefore<T(!new)>(x: T, xs: seq<T>, le: (T, T) -> bool, b: T)
    requires b in xs && le(x, b)
    ensures Before(InsertBy(x, xs, le), x, b)
  {
    var q :| 0 <= q < |xs| && xs[q] == b;
    var r := InsertBy(x, xs, le);
    if le(x, xs[0]) {
      assert r[0] == x && r[q+1] == b;
    } else {
      assert xs[1..][q-1] == b;
      InsertedBefore(x, xs[1..], le, b);
      var t := InsertBy(x, xs[1..], le);
      var i, j :| 0 <= i < j < |t| && t[i] == x && t[j] == b;
      assert r[i+1] == x && r[j+1] == b;
    }
  }

  lemma SortedBefore<T(!new)>(r: seq<T>, le: (T, T) -> bool, a: T, b: T)
    requires TotalPreorder(le) && SortedBy(r, le) && a in r && b in r && !le(a, b)
    ensures Before(r, b, a)
  {
    var k :| 0 <= k < |r| && r[k] == a;
    var l :| 0 <= l < |r| && r[l] == b;
    assert le(a, a);
    assert l < k;
  }

  /** Of two elements the sort changes the order exactly if it has to. */
  lemma {:induction false} SortStable<T(!new)>(xs: seq<T>, le: (T, T) -> bool, i: nat, j: nat)
    requires TotalPreorder(le) && i < j < |xs|
    ensures if le(xs[i], xs[j]) then Before(SortBy(xs, le), xs[i], xs[j]) else Before(SortBy(xs, le), xs[j], xs[i])
  {
    if !le(xs[i], xs[j]) {
      SortBySorted(xs, le);
      assert xs[i] in xs && xs[j] in xs;
      SortedBefore(SortBy(xs, le), le, xs[i], xs[j]);
    } else {
      var rest := SortBy(xs[1..], le);
      if i == 0 {
        assert xs[1..][j-1] == xs[j];
        InsertedBefore(xs[0], rest, le, xs[j]);
      } else {
        assert xs[1..][i-1] == xs[i] && xs[1..][j-1] == xs[j];
        SortStable(xs[1..], le, i - 1, j - 1);
        InsertBefore(xs[0], rest, le, xs[i], xs[j]);
      }
    }
  }
}
