/**
 Chain order against sort order. The chain emits a migration's events by block and log index; the
 script sorts starts before finalizations within a block. A chain that returns and starts again
 in one block is therefore reported as an error although its history is in order, and that is
 the only such case.
 */
module MigrationOrder {
  import opened Ordering
  import opened MigrationEvents
  import opened MigrationWalk

  /** The order of emission. */
  predicate Emitted(a: Event, b: Event) {
    a.block < b.block || (a.block == b.block && a.logIndex < b.logIndex)
  }

  /** A history as the chain records it: in order of emission, every chain alternating. */
  ghost predicate History(legacy: nat, h: seq<Event>) {
    Sorted(h, Emitted) && WellPaired(legacy, h)
  }

  /** A chain's events `p` hold a finalization followed by a start in the same block. */
  ghost predicate RestartsAt(p: seq<Event>, i: nat, j: nat)
  {
    i < j < |p| && p[i].kind == Finalized && p[j].kind == Started && p[i].block == p[j].block
  }

  ghost predicate RestartsInBlock(h: seq<Event>) {
    exists c, i, j :: RestartsAt(Of(h, c), i, j)
  }

  // ----- sorting a history -----

  lemma LeqTransitive(x: Event, y: Event, z: Event)
    requires Leq(x, y) && Leq(y, z)
    ensures Leq(x, z)
  {
  }

  lemma EmittedOnce(h: seq<Event>, x: Event, y: Event)
    requires Sorted(h, Emitted) && x in h && y in h && Leq(x, y) && Leq(y, x)
    ensures x == y
  {
    var i :| 0 <= i < |h| && h[i] == x;
    var j :| 0 <= j < |h| && h[j] == y;
  }

  lemma HistoryTotal(h: seq<Event>)
    requires Sorted(h, Emitted)
    ensures TotalOn(Leq, multiset(h))
  {
    var all := multiset(h);
    forall x, y | x in all && y in all && Leq(x, y) && Leq(y, x) ensures x == y {
      EmittedOnce(h, x, y);
    }
    forall x, y, z | x in all && y in all && z in all && Leq(x, y) && Leq(y, z) ensures Leq(x, z) {
      LeqTransitive(x, y, z);
    }
  }

  lemma {:induction false} OfMultiset(s: seq<Event>, c: nat)
    ensures forall x :: multiset(Of(s, c))[x] == if x.chainId == c then multiset(s)[x] else 0
  {
    if s != [] {
      var prev, e := s[..|s| - 1], s[|s| - 1];
      OfMultiset(prev, c);
      assert s == prev + [e];
    }
  }

  lemma OfSortMultiset(h: seq<Event>, c: nat)
    ensures multiset(Of(Sort(h, Leq), c)) == multiset(Of(h, c))
  {
    OfMultiset(h, c);
    OfMultiset(Sort(h, Leq), c);
  }

  lemma TargetsSorted(legacy: nat, h: seq<Event>)
    ensures TargetsLegacy(legacy, Sort(h, Leq)) <==> TargetsLegacy(legacy, h)
  {
    var s := Sort(h, Leq);
    forall e ensures e in s <==> e in h {
      assert e in s <==> e in multiset(s);
      assert e in h <==> e in multiset(h);
    }
  }

  /** Without a restart, sorting leaves a chain's events as they are. */
  lemma NoRestartKeepsOrder(h: seq<Event>, c: nat)
    requires Sorted(h, Emitted) && !RestartsInBlock(h)
    ensures Of(Sort(h, Leq), c) == Of(h, c)
  {
    var p, q := Of(h, c), Of(Sort(h, Leq), c);
    HistoryTotal(h);
    OfSorted(h, c, Emitted);
    SortSorted(h, Leq);
    OfSorted(Sort(h, Leq), c, Leq);
    OfSortMultiset(h, c);
    forall i, j | 0 <= i < j < |p| ensures Leq(p[i], p[j]) {
      assert !RestartsAt(p, i, j);
      assert Emitted(p[i], p[j]);
    }
    assert AntisymmetricOn(Leq, p) by {
      OfMembers(h, c);
      TotalIsAntisymmetric(h, Leq);
    }
    SortedUnique(p, q, Leq);
  }

  // ----- a restart breaks the alternation -----

  /** Number of leading events before block `b`. */
  function Before(p: seq<Event>, b: nat): (n: nat)
    ensures n <= |p|
    ensures forall k :: 0 <= k < n ==> p[k].block < b
    ensures n < |p| ==> p[n].block >= b
  {
    if p == [] || p[0].block >= b then 0
    else 1 + Before(p[1..], b)
  }

  ghost predicate ByBlock(p: seq<Event>) {
    forall i, j :: 0 <= i < j < |p| ==> p[i].block <= p[j].block
  }

  lemma BeforeMultiset(p: seq<Event>, b: nat, x: Event)
    requires ByBlock(p)
    ensures multiset(p[..Before(p, b)])[x] == if x.block < b then multiset(p)[x] else 0
  {
    var n := Before(p, b);
    assert p == p[..n] + p[n..];
    assert multiset(p) == multiset(p[..n]) + multiset(p[n..]);
    if x.block < b {
      assert x !in p[n..];
    } else {
      assert x !in p[..n];
    }
  }

  /** The same events reach a block after the same number of steps, in any order by block. */
  lemma BeforeAgrees(p: seq<Event>, q: seq<Event>, b: nat)
    requires ByBlock(p) && ByBlock(q) && multiset(p) == multiset(q)
    ensures Before(p, b) == Before(q, b)
  {
    var u, v := p[..Before(p, b)], q[..Before(q, b)];
    forall x: Event ensures multiset(u)[x] == multiset(v)[x] {
      BeforeMultiset(p, b, x);
      BeforeMultiset(q, b, x);
    }
    SameSize(u, v);
  }

  lemma SameSize(u: seq<Event>, v: seq<Event>)
    requires forall x: Event :: multiset(u)[x] == multiset(v)[x]
    ensures |u| == |v|
  {
    assert multiset(u) == multiset(v);
    assert |u| == |multiset(u)| && |v| == |multiset(v)|;
  }

  lemma BlockStart(p: seq<Event>, b: nat, k: nat)
    requires ByBlock(p) && k < |p| && p[k].block == b
    ensures Before(p, b) <= k && p[Before(p, b)].block == b
  {
    var n := Before(p, b);
    if n < k {
      assert p[n].block <= p[k].block;
    }
  }

  /** In sort order a start at index `v` of a block makes every earlier event of that block a start. */
  lemma StartsComeFirst(q: seq<Event>, u: nat, v: nat)
    requires Sorted(q, Leq) && u <= v < |q| && q[v].kind == Started && q[u].block >= q[v].block
    ensures q[u].kind == Started
  {
    if u < v {
      assert Leq(q[u], q[v]);
    }
  }

  /** Two starts of one chain in one block leave no room for the finalization between them. */
  lemma TwoStartsClash(q: seq<Event>, a: nat, v: nat, w: nat)
    requires Sorted(q, Leq) && a <= v < w < |q|
    requires q[v].kind == Started && q[w].kind == Started && q[a].block == q[v].block == q[w].block
    ensures !Alternating(q)
  {
    StartsComeFirst(q, a, w);
    assert Leq(q[a], q[a + 1]);
    StartsComeFirst(q, a + 1, w);
    assert KindAt(a) != KindAt(a + 1);
  }

  lemma ByBlockBoth(p: seq<Event>, q: seq<Event>)
    requires Sorted(p, Emitted) && Sorted(q, Leq)
    ensures ByBlock(p) && ByBlock(q)
  {
  }

  lemma IndexOf(p: seq<Event>, q: seq<Event>, k: nat) returns (v: nat)
    requires multiset(p) == multiset(q) && k < |p|
    ensures v < |q| && q[v] == p[k]
  {
    assert p[k] in multiset(q);
    v :| 0 <= v < |q| && q[v] == p[k];
  }

  lemma RestartBreaksAlternation(p: seq<Event>, q: seq<Event>, i: nat, j: nat)
    requires Sorted(p, Emitted) && Alternating(p) && RestartsAt(p, i, j)
    requires Sorted(q, Leq) && multiset(p) == multiset(q)
    ensures !Alternating(q)
  {
    var b := p[i].block;
    var a := Before(p, b);
    ByBlockBoth(p, q);
    BeforeAgrees(p, q, b);
    BlockStart(p, b, i);
    var v := IndexOf(p, q, j);
    BlockStart(q, b, v);
    StartsComeFirst(q, a, v);
    if p[a].kind == Started {
      // a start opens the block, so the restart is a second one
      var w := IndexOf(p, q, a);
      BlockStart(q, b, w);
      assert Emitted(p[a], p[j]);
      TwoStartsClash(q, a, if v < w then v else w, if v < w then w else v);
    } else {
      // a finalization opens the block in p, a start in q, after equally many events
      assert p[a].kind == KindAt(a) && q[a].kind != KindAt(a);
    }
  }

  /**
   The script accepts a history exactly when no chain restarts within the block it returned in;
   and then it finds the same spans as in the order of emission.
   */
  lemma AcceptedExactlyWithoutRestart(legacy: nat, h: seq<Event>)
    requires History(legacy, h)
    ensures Walk(legacy, Sort(h, Leq)).Ok? <==> !RestartsInBlock(h)
    ensures !RestartsInBlock(h) ==> forall c: nat :: Of(Sort(h, Leq), c) == Of(h, c)
  {
    var s := Sort(h, Leq);
    WalkOutcome(legacy, s);
    TargetsSorted(legacy, h);
    if RestartsInBlock(h) {
      var c, i, j :| RestartsAt(Of(h, c), i, j);
      OfSorted(h, c, Emitted);
      HistoryTotal(h);
      SortSorted(h, Leq);
      OfSorted(s, c, Leq);
      OfSortMultiset(h, c);
      RestartBreaksAlternation(Of(h, c), Of(s, c), i, j);
    } else {
      forall c: nat ensures Of(s, c) == Of(h, c) {
        NoRestartKeepsOrder(h, c);
      }
    }
  }

  lemma OfThree(a: Event, b: Event, d: Event, c: nat)
    requires a.chainId == b.chainId == d.chainId
    ensures Of([a, b, d], c) == if c == a.chainId then [a, b, d] else []
  {
    OfSnoc([], a, c);
    OfSnoc([a], b, c);
    OfSnoc([a, b], d, c);
    assert [] + [a] == [a] && [a, b] == [a] + [b] && [a, b, d] == [a, b] + [d];
  }

  /** A chain that starts, returns and starts again in the block of its return. */
  ghost predicate Restart(legacy: nat, a: Event, b: Event, d: Event) {
    && a.chainId == b.chainId == d.chainId
    && a.kind == Started && b.kind == Finalized && d.kind == Started
    && a.settlementLayer == d.settlementLayer == legacy
    && a.block < b.block == d.block && b.logIndex < d.logIndex
  }

  lemma RestartIsHistory(legacy: nat, a: Event, b: Event, d: Event, h: seq<Event>)
    requires Restart(legacy, a, b, d) && h == [a, b, d]
    ensures History(legacy, h) && RestartsInBlock(h)
  {
    forall c: nat ensures Alternating(Of(h, c)) {
      OfThree(a, b, d, c);
    }
    OfThree(a, b, d, a.chainId);
    assert RestartsAt(Of(h, a.chainId), 1, 2);
  }

  /** Such a history is in order, and the script rejects it. */
  lemma RestartExample(legacy: nat, a: Event, b: Event, d: Event)
    requires Restart(legacy, a, b, d)
    ensures History(legacy, [a, b, d]) && Walk(legacy, Sort([a, b, d], Leq)).Err?
  {
    RestartIsHistory(legacy, a, b, d, [a, b, d]);
    AcceptedExactlyWithoutRestart(legacy, [a, b, d]);
  }
}
