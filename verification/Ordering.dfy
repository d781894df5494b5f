/**
 Sorting, as `Array.prototype.sort` and Python's `sorted` do it: a stable sort by a total order.
 The order is a parameter; what matters to the scripts is that the sorted sequence depends only
 on the multiset of elements.
 */
module Ordering {

  /** `leq` is connected and transitive on the elements of `s`; different elements may be level. */
  ghost predicate PreorderOn<T(!new)>(leq: (T, T) -> bool, s: multiset<T>)
  {
    && (forall x, y :: x in s && y in s ==> leq(x, y) || leq(y, x))
    && (forall x, y, z :: x in s && y in s && z in s && leq(x, y) && leq(y, z) ==> leq(x, z))
  }

  /** In addition, no two different elements of `s` are level. */
  ghost predicate TotalOn<T(!new)>(leq: (T, T) -> bool, s: multiset<T>)
  {
    && PreorderOn(leq, s)
    && (forall x, y :: x in s && y in s && leq(x, y) && leq(y, x) ==> x == y)
  }

  ghost predicate Total<T(!new)>(leq: (T, T) -> bool)
  {
    && (forall x :: leq(x, x))
    && (forall x, y :: leq(x, y) && leq(y, x) ==> x == y)
    && (forall x, y :: leq(x, y) || leq(y, x))
    && (forall x, y, z :: leq(x, y) && leq(y, z) ==> leq(x, z))
  }

  ghost predicate Sorted<T>(s: seq<T>, leq: (T, T) -> bool)
  {
    forall i, j :: 0 <= i < j < |s| ==> leq(s[i], s[j])
  }

  ghost predicate Distinct<T>(s: seq<T>)
  {
    forall i, j :: 0 <= i < j < |s| ==> s[i] != s[j]
  }

  function Elements<T>(s: seq<T>): set<T> {
    set x | x in s
  }

  lemma ElementsSnoc<T>(s: seq<T>, i: nat)
    requires i < |s|
    ensures Elements(s[..i + 1]) == Elements(s[..i]) + {s[i]}
  {
    assert s[..i + 1] == s[..i] + [s[i]];
  }

  lemma ElementsConcat<T>(s: seq<T>, t: seq<T>)
    ensures Elements(s + t) == Elements(s) + Elements(t)
  {
  }

  /** `s.map(f)`. */
  function Apply<S, T>(s: seq<S>, f: S -> T): (r: seq<T>)
    ensures |r| == |s| && forall i :: 0 <= i < |s| ==> r[i] == f(s[i])
  {
    seq(|s|, i requires 0 <= i < |s| => f(s[i]))
  }

  function Insert<T>(x: T, s: seq<T>, leq: (T, T) -> bool): (r: seq<T>)
    ensures multiset(r) == multiset{x} + multiset(s)
  {
    if s == [] then [x]
    else if leq(x, s[0]) then [x] + s
    else
      assert s == [s[0]] + s[1..];
      [s[0]] + Insert(x, s[1..], leq)
  }

  /** The elements of `s` in ascending order. */
  function Sort<T>(s: seq<T>, leq: (T, T) -> bool): (r: seq<T>)
    ensures multiset(r) == multiset(s)
    ensures |r| == |s|
  {
    if s == [] then []
    else
      assert s == [s[0]] + s[1..];
      var r := Insert(s[0], Sort(s[1..], leq), leq);
      assert |r| == |multiset(r)| == |multiset(s)| == |s|;
      r
  }

  lemma BelowHead<T(!new)>(x: T, s: seq<T>, leq: (T, T) -> bool)
    requires s != [] && PreorderOn(leq, multiset{x} + multiset(s)) && Sorted(s, leq) && leq(x, s[0])
    ensures forall y :: y in s ==> leq(x, y)
  {
    forall y | y in s ensures leq(x, y) {
      var all := multiset{x} + multiset(s);
      assert x in all && s[0] in all && y in all;
      assert leq(s[0], y);
    }
  }

  lemma SortedCons<T(!new)>(x: T, s: seq<T>, leq: (T, T) -> bool)
    requires Sorted(s, leq) && forall y :: y in s ==> leq(x, y)
    ensures Sorted([x] + s, leq)
  {
  }

  lemma PreorderOnPart<T(!new)>(part: multiset<T>, all: multiset<T>, leq: (T, T) -> bool)
    requires PreorderOn(leq, all) && part <= all
    ensures PreorderOn(leq, part)
  {
    assert forall x :: x in part ==> x in all;
  }

  lemma {:induction false} InsertSorted<T(!new)>(x: T, s: seq<T>, leq: (T, T) -> bool)
    requires PreorderOn(leq, multiset{x} + multiset(s)) && Sorted(s, leq)
    ensures Sorted(Insert(x, s, leq), leq)
  {
    if s != [] {
      var all, t := multiset{x} + multiset(s), s[1..];
      assert s == [s[0]] + t;
      assert x in all && s[0] in all;
      if leq(x, s[0]) {
        BelowHead(x, s, leq);
        SortedCons(x, s, leq);
      } else {
        PreorderOnPart(multiset{x} + multiset(t), all, leq);
        InsertSorted(x, t, leq);
        var r := Insert(x, t, leq);
        forall y | y in r ensures leq(s[0], y) {
          assert y in multiset(r);
          assert y == x || y in multiset(t);
        }
        SortedCons(s[0], r, leq);
      }
    }
  }

  lemma {:induction false} SortSorted<T(!new)>(s: seq<T>, leq: (T, T) -> bool)
    requires PreorderOn(leq, multiset(s))
    ensures Sorted(Sort(s, leq), leq)
  {
    if s != [] {
      assert s == [s[0]] + s[1..];
      assert multiset(s) == multiset{s[0]} + multiset(s[1..]);
      PreorderOnPart(multiset(s[1..]), multiset(s), leq);
      SortSorted(s[1..], leq);
      InsertSorted(s[0], Sort(s[1..], leq), leq);
    }
  }

  ghost predicate AntisymmetricOn<T(!new)>(leq: (T, T) -> bool, s: seq<T>)
  {
    forall x, y :: x in s && y in s && leq(x, y) && leq(y, x) ==> x == y
  }

  lemma SortedHead<T(!new)>(s: seq<T>, t: seq<T>, leq: (T, T) -> bool)
    requires s != [] && t != [] && multiset(s) == multiset(t)
    requires AntisymmetricOn(leq, s)
    requires Sorted(s, leq) && Sorted(t, leq)
    ensures s[0] == t[0]
  {
    assert s[0] in multiset(t) && t[0] in multiset(s);
    var i :| 0 <= i < |s| && s[i] == t[0];
    var j :| 0 <= j < |t| && t[j] == s[0];
    if i > 0 && j > 0 {
      assert leq(s[0], s[i]) && leq(t[0], t[j]);
      assert s[0] in s && s[i] in s;
    }
  }

  lemma SortedTail<T(!new)>(s: seq<T>, leq: (T, T) -> bool)
    requires s != [] && Sorted(s, leq)
    ensures Sorted(s[1..], leq)
    ensures multiset(s[1..]) == multiset(s) - multiset{s[0]}
    ensures AntisymmetricOn(leq, s) ==> AntisymmetricOn(leq, s[1..])
  {
    assert s == [s[0]] + s[1..];
    assert forall x :: x in s[1..] ==> x in s;
  }

  lemma SortedTails<T(!new)>(s: seq<T>, t: seq<T>, leq: (T, T) -> bool)
    requires s != [] && t != [] && multiset(s) == multiset(t)
    requires AntisymmetricOn(leq, s)
    requires Sorted(s, leq) && Sorted(t, leq)
    ensures s[0] == t[0] && multiset(s[1..]) == multiset(t[1..])
    ensures AntisymmetricOn(leq, s[1..]) && Sorted(s[1..], leq) && Sorted(t[1..], leq)
  {
    SortedHead(s, t, leq);
    SortedTail(s, leq);
    SortedTail(t, leq);
  }

  /** A multiset has only one ascending arrangement. */
  lemma {:induction false} SortedUnique<T(!new)>(s: seq<T>, t: seq<T>, leq: (T, T) -> bool)
    requires AntisymmetricOn(leq, s)
    requires multiset(s) == multiset(t)
    requires Sorted(s, leq) && Sorted(t, leq)
    ensures s == t
  {
    if s == [] {
      assert |multiset(t)| == 0;
    } else {
      assert |multiset(t)| > 0;
      SortedTails(s, t, leq);
      SortedUnique(s[1..], t[1..], leq);
      assert s == [s[0]] + s[1..] && t == [t[0]] + t[1..];
    }
  }

  lemma TotalIsAntisymmetric<T(!new)>(s: seq<T>, leq: (T, T) -> bool)
    requires TotalOn(leq, multiset(s))
    ensures AntisymmetricOn(leq, s)
  {
    forall x, y | x in s && y in s && leq(x, y) && leq(y, x) ensures x == y {
      assert x in multiset(s) && y in multiset(s);
    }
  }

  lemma SortCanonical<T(!new)>(s: seq<T>, t: seq<T>, leq: (T, T) -> bool)
    requires TotalOn(leq, multiset(s)) && multiset(s) == multiset(t)
    ensures Sort(s, leq) == Sort(t, leq)
  {
    SortSorted(s, leq);
    SortSorted(t, leq);
    TotalIsAntisymmetric(Sort(s, leq), leq);
    SortedUnique(Sort(s, leq), Sort(t, leq), leq);
  }

  lemma SortFixed<T(!new)>(s: seq<T>, leq: (T, T) -> bool)
    requires TotalOn(leq, multiset(s)) && Sorted(s, leq)
    ensures Sort(s, leq) == s
  {
    SortSorted(s, leq);
    TotalIsAntisymmetric(Sort(s, leq), leq);
    SortedUnique(Sort(s, leq), s, leq);
  }

  // ----- duplicate-free sequences -----

  lemma {:induction false} DistinctMultiset<T>(s: seq<T>)
    requires Distinct(s)
    ensures multiset(s) == multiset(set x | x in s)
  {
    if s != [] {
      assert s == [s[0]] + s[1..];
      DistinctMultiset(s[1..]);
      assert (set x | x in s) == {s[0]} + (set x | x in s[1..]);
      assert s[0] !in s[1..];
    }
  }

  /** A sequence is duplicate-free exactly when it has as many elements as its set. */
  lemma {:induction false} SizeOfElements<T>(s: seq<T>)
    ensures |Elements(s)| <= |s|
    ensures |Elements(s)| == |s| <==> Distinct(s)
  {
    if s != [] {
      var init, last := s[..|s| - 1], s[|s| - 1];
      SizeOfElements(init);
      assert s == init + [last];
      assert Elements(s) == Elements(init) + {last};
      if last in init {
        assert Elements(s) == Elements(init);
        var k :| 0 <= k < |init| && init[k] == last;
        assert s[k] == s[|s| - 1];
      } else {
        assert Distinct(s) <==> Distinct(init);
      }
    }
  }

  /** Duplicate-freeness is a property of the multiset. */
  lemma DistinctFromMultiset<T>(s: seq<T>)
    requires forall x :: x in s ==> multiset(s)[x] == 1
    ensures Distinct(s)
  {
    forall i, j | 0 <= i < j < |s| ensures s[i] != s[j] {
      assert s == s[..j] + s[j..];
      assert s[..j][i] == s[i] && s[j..][0] == s[j];
      assert s[i] in multiset(s[..j]) && s[j] in multiset(s[j..]);
      assert multiset(s) == multiset(s[..j]) + multiset(s[j..]);
      assert s[i] in s;
    }
  }

  /** Two ascending duplicate-free arrangements of the same set are equal. */
  lemma SortedSetUnique<T(!new)>(s: seq<T>, t: seq<T>, leq: (T, T) -> bool)
    requires AntisymmetricOn(leq, s)
    requires Distinct(s) && Distinct(t) && forall x :: x in s <==> x in t
    requires Sorted(s, leq) && Sorted(t, leq)
    ensures s == t
  {
    DistinctMultiset(s);
    DistinctMultiset(t);
    assert (set x | x in s) == (set x | x in t);
    SortedUnique(s, t, leq);
  }

  lemma SortDistinct<T(!new)>(s: seq<T>, leq: (T, T) -> bool)
    requires Distinct(s)
    ensures Distinct(Sort(s, leq))
    ensures forall x :: x in Sort(s, leq) <==> x in s
  {
    var r := Sort(s, leq);
    DistinctMultiset(s);
    forall x ensures x in r <==> x in s {
      assert x in r <==> x in multiset(r);
      assert x in s <==> x in multiset(s);
    }
    DistinctFromMultiset(r);
  }

  // ----- sets in ascending order -----

  /** The elements of `s` in ascending order, each once. */
  ghost function Listing<T(!new)>(s: set<T>, leq: (T, T) -> bool): (r: seq<T>)
    requires Total(leq)
    ensures Distinct(r) && Sorted(r, leq)
    ensures forall x :: x in r <==> x in s
  {
    if s == {} then []
    else
      var x :| x in s;
      var rest := Listing(s - {x}, leq);
      ListingInsert(x, rest, leq);
      Insert(x, rest, leq)
  }

  lemma ListingInsert<T(!new)>(x: T, s: seq<T>, leq: (T, T) -> bool)
    requires Total(leq) && Sorted(s, leq) && Distinct(s) && x !in s
    ensures var r := Insert(x, s, leq);
      Sorted(r, leq) && Distinct(r) && forall y :: y in r <==> y == x || y in s
  {
    var r := Insert(x, s, leq);
    InsertSorted(x, s, leq);
    DistinctMultiset(s);
    forall y ensures y in r <==> y == x || y in s {
      assert y in r <==> y in multiset(r);
      assert y in s <==> y in multiset(s);
    }
    DistinctFromMultiset(r);
  }

  /** `Array.from(s).sort(leq)`: the set is enumerated in some order and sorted. */
  method SortedArray<T(!new,==)>(s: set<T>, leq: (T, T) -> bool) returns (r: seq<T>)
    requires Total(leq)
    ensures r == Listing(s, leq)
  {
    var rest, all := s, [];
    while rest != {}
      invariant rest <= s && Distinct(all) && forall x :: x in all <==> x in s - rest
      decreases rest
    {
      var x :| x in rest;
      assert x !in all;
      rest, all := rest - {x}, all + [x];
    }
    r := Sort(all, leq);
    SortSorted(all, leq);
    SortDistinct(all, leq);
    SortedSetUnique(r, Listing(s, leq), leq);
  }
}
