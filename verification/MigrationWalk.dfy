/**
 Deriving migration intervals: all events are sorted and walked once; a start opens a migration of
 its chain, the next finalization of that chain closes it.
 */
module MigrationWalk {
  import opened Wrappers
  import opened Ordering
  import opened MigrationEvents

  function KindOrder(k: Kind): nat {
    if k == Started then 0 else 1
  }

  /** The comparison the script sorts by: block, then kind, then log index. */
  predicate Leq(a: Event, b: Event) {
    || a.block < b.block
    || (a.block == b.block && KindOrder(a.kind) < KindOrder(b.kind))
    || (a.block == b.block && a.kind == b.kind && a.logIndex <= b.logIndex)
  }

  // ----- the walk -----

  /** A migration of a chain to the gateway and back. */
  datatype Span = Span(chainId: nat, startedBlock: nat, finalizedBlock: nat)

  datatype State = State(open: map<nat, nat>, spans: seq<Span>)

  function Step(legacy: nat, s: State, e: Event): Result<State> {
    match e.kind
    case Started =>
      if e.settlementLayer != legacy then Err("MigrationStarted targets another settlement layer")
      else if e.chainId in s.open then Err("MigrationStarted for a chain with an open migration")
      else Ok(s.(open := s.open[e.chainId := e.block]))
    case Finalized =>
      if e.chainId !in s.open then Err("MigrationFinalized with no preceding MigrationStarted")
      else Ok(State(s.open - {e.chainId}, s.spans + [Span(e.chainId, s.open[e.chainId], e.block)]))
  }

  function Walk(legacy: nat, events: seq<Event>): Result<State> {
    if events == [] then Ok(State(map[], []))
    else
      match Walk(legacy, events[..|events| - 1])
      case Err(e) => Err(e)
      case Ok(s) => Step(legacy, s, events[|events| - 1])
  }

  // ----- what the walk is to find, chain by chain -----

  function Of(events: seq<Event>, c: nat): seq<Event> {
    if events == [] then []
    else
      var e := events[|events| - 1];
      Of(events[..|events| - 1], c) + if e.chainId == c then [e] else []
  }

  function SpansOf(spans: seq<Span>, c: nat): seq<Span> {
    if spans == [] then []
    else
      var s := spans[|spans| - 1];
      SpansOf(spans[..|spans| - 1], c) + if s.chainId == c then [s] else []
  }

  function KindAt(i: nat): Kind {
    if i % 2 == 0 then Started else Finalized
  }

  ghost predicate Alternating(p: seq<Event>) {
    forall i :: 0 <= i < |p| ==> p[i].kind == KindAt(i)
  }

  /** Consecutive pairs of one chain's events; an unmatched last one is left out. */
  function Pairs(p: seq<Event>, c: nat): (spans: seq<Span>)
    ensures |spans| == |p| / 2
    ensures forall i :: 0 <= i < |spans| ==> spans[i] == Span(c, p[2 * i].block, p[2 * i + 1].block)
  {
    seq(|p| / 2, i requires 0 <= i < |p| / 2 => Span(c, p[2 * i].block, p[2 * i + 1].block))
  }

  ghost predicate TargetsLegacy(legacy: nat, events: seq<Event>) {
    forall e :: e in events && e.kind == Started ==> e.settlementLayer == legacy
  }

  /** Every start goes to the legacy gateway and every chain alternates, beginning with a start. */
  ghost predicate WellPaired(legacy: nat, events: seq<Event>) {
    TargetsLegacy(legacy, events) && forall c: nat :: Alternating(Of(events, c))
  }

  ghost predicate Describes(s: State, p: seq<Event>, c: nat) {
    && (c in s.open <==> |p| % 2 == 1)
    && (c in s.open ==> s.open[c] == p[|p| - 1].block)
    && SpansOf(s.spans, c) == Pairs(p, c)
  }

  lemma PairsSnoc(p: seq<Event>, e: Event, c: nat)
    ensures |p| % 2 == 0 ==> Pairs(p + [e], c) == Pairs(p, c)
    ensures |p| % 2 == 1 ==> Pairs(p + [e], c) == Pairs(p, c) + [Span(c, p[|p| - 1].block, e.block)]
  {
  }

  lemma AlternatingSnoc(p: seq<Event>, e: Event)
    ensures Alternating(p + [e]) <==> Alternating(p) && e.kind == KindAt(|p|)
  {
    var q := p + [e];
    assert q[|p|] == e;
    if Alternating(q) {
      forall i | 0 <= i < |p| ensures p[i].kind == KindAt(i) {
        assert q[i] == p[i];
      }
    }
  }

  lemma SpansSnoc(spans: seq<Span>, s: Span, c: nat)
    ensures SpansOf(spans + [s], c) == SpansOf(spans, c) + if s.chainId == c then [s] else []
  {
    assert (spans + [s])[..|spans|] == spans;
  }

  lemma OfSnoc(events: seq<Event>, e: Event, c: nat)
    ensures Of(events + [e], c) == Of(events, c) + if e.chainId == c then [e] else []
  {
    assert (events + [e])[..|events|] == events;
  }

  /** One event: accepted exactly when it continues its chain's alternation. */
  lemma StepOutcome(legacy: nat, s: State, e: Event, p: seq<Event>)
    requires Describes(s, p, e.chainId)
    ensures Step(legacy, s, e).Ok? <==> e.kind == KindAt(|p|) && (e.kind == Started ==> e.settlementLayer == legacy)
    ensures Step(legacy, s, e).Ok? ==> Describes(Step(legacy, s, e).value, p + [e], e.chainId)
  {
    var r := Step(legacy, s, e);
    PairsSnoc(p, e, e.chainId);
    if r.Ok? && e.kind == Finalized {
      SpansSnoc(s.spans, Span(e.chainId, s.open[e.chainId], e.block), e.chainId);
    }
  }

  /** Other chains are not touched. */
  lemma StepFrame(legacy: nat, s: State, e: Event, p: seq<Event>, c: nat)
    requires Describes(s, p, c) && c != e.chainId && Step(legacy, s, e).Ok?
    ensures Describes(Step(legacy, s, e).value, p, c)
  {
    if e.kind == Finalized {
      SpansSnoc(s.spans, Span(e.chainId, s.open[e.chainId], e.block), c);
    }
  }

  lemma WellPairedSnoc(legacy: nat, events: seq<Event>, e: Event)
    ensures WellPaired(legacy, events + [e]) <==>
      && WellPaired(legacy, events)
      && e.kind == KindAt(|Of(events, e.chainId)|)
      && (e.kind == Started ==> e.settlementLayer == legacy)
  {
    var all := events + [e];
    forall c: nat
      ensures Alternating(Of(all, c)) <==>
        Alternating(Of(events, c)) && (c == e.chainId ==> e.kind == KindAt(|Of(events, c)|))
    {
      OfSnoc(events, e, c);
      AlternatingSnoc(Of(events, c), e);
      assert Of(events, c) + [] == Of(events, c);
    }
    assert e in all && forall x :: x in events ==> x in all;
  }

  /**
   The walk ends without an error exactly when all starts target the legacy gateway and every
   chain's events alternate beginning with a start. It then yields for each chain exactly the
   consecutive pairs, and leaves open exactly the unmatched starts.
   */
  lemma {:induction false} WalkOutcome(legacy: nat, events: seq<Event>)
    ensures Walk(legacy, events).Ok? <==> WellPaired(legacy, events)
    ensures Walk(legacy, events).Ok? ==> forall c: nat :: Describes(Walk(legacy, events).value, Of(events, c), c)
  {
    if events != [] {
      var prev, e := events[..|events| - 1], events[|events| - 1];
      assert events == prev + [e];
      WalkOutcome(legacy, prev);
      WellPairedSnoc(legacy, prev, e);
      var before := Walk(legacy, prev);
      if before.Ok? {
        StepOutcome(legacy, before.value, e, Of(prev, e.chainId));
        if Walk(legacy, events).Ok? {
          forall c: nat ensures Describes(Walk(legacy, events).value, Of(events, c), c) {
            OfSnoc(prev, e, c);
            if c != e.chainId {
              StepFrame(legacy, before.value, e, Of(prev, c), c);
              assert Of(events, c) == Of(prev, c);
            }
          }
        }
      }
    }
  }

  /** Spans are listed in the order of the finalizations that close them. */
  function Closings(events: seq<Event>): seq<(nat, nat)> {
    if events == [] then []
    else
      var e := events[|events| - 1];
      Closings(events[..|events| - 1]) + if e.kind == Finalized then [(e.chainId, e.block)] else []
  }

  lemma {:induction false} SpansFollowClosings(legacy: nat, events: seq<Event>)
    requires Walk(legacy, events).Ok?
    ensures var spans, closings := Walk(legacy, events).value.spans, Closings(events);
      |spans| == |closings| && forall i :: 0 <= i < |spans| ==> (spans[i].chainId, spans[i].finalizedBlock) == closings[i]
  {
    if events != [] {
      SpansFollowClosings(legacy, events[..|events| - 1]);
    }
  }

  // ----- order of a chain's spans -----

  lemma {:induction false} OfMembers(events: seq<Event>, c: nat)
    ensures forall e :: e in Of(events, c) <==> e in events && e.chainId == c
  {
    if events != [] {
      var prev, e := events[..|events| - 1], events[|events| - 1];
      OfMembers(prev, c);
      assert events == prev + [e];
    }
  }

  lemma {:induction false} OfSorted(events: seq<Event>, c: nat, leq: (Event, Event) -> bool)
    requires Sorted(events, leq)
    ensures Sorted(Of(events, c), leq)
  {
    if events != [] {
      var prev, e := events[..|events| - 1], events[|events| - 1];
      OfSorted(prev, c, leq);
      OfMembers(prev, c);
      forall x | x in Of(prev, c) ensures leq(x, e) {
        var k :| 0 <= k < |prev| && prev[k] == x;
        assert events[k] == x;
      }
    }
  }

  /** In a sorted stream a span ends no earlier than it starts, and spans of a chain do not overlap. */
  lemma SpansOrdered(legacy: nat, events: seq<Event>, c: nat)
    requires Sorted(events, Leq) && Walk(legacy, events).Ok?
    ensures var spans := SpansOf(Walk(legacy, events).value.spans, c);
      && (forall i :: 0 <= i < |spans| ==> spans[i].startedBlock <= spans[i].finalizedBlock)
      && (forall i, j :: 0 <= i < j < |spans| ==> spans[i].finalizedBlock <= spans[j].startedBlock)
  {
    WalkOutcome(legacy, events);
    OfSorted(events, c, Leq);
    var p := Of(events, c);
    assert Describes(Walk(legacy, events).value, p, c);
    var spans := Pairs(p, c);
    forall i | 0 <= i < |spans| ensures spans[i].startedBlock <= spans[i].finalizedBlock {
      assert Leq(p[2 * i], p[2 * i + 1]);
    }
    forall i, j | 0 <= i < j < |spans| ensures spans[i].finalizedBlock <= spans[j].startedBlock {
      assert Leq(p[2 * i + 1], p[2 * j]);
    }
  }

  /** Sorting by the script's comparison yields a sorted stream, also when events are level. */
  lemma SortedByLeq(found: seq<Event>)
    ensures Sorted(Sort(found, Leq), Leq)
  {
    SortSorted(found, Leq);
  }

  lemma {:induction false} SpansPrefix(spans: seq<Span>, c: nat, i: nat)
    requires i <= |spans|
    ensures SpansOf(spans[..i], c) <= SpansOf(spans, c)
  {
    if i < |spans| {
      var prev := spans[..|spans| - 1];
      SpansPrefix(prev, c, i);
      assert prev[..i] == spans[..i];
    } else {
      assert spans[..i] == spans;
    }
  }

  /** Where the span at `i` stands among the spans of its chain. */
  lemma SpanPosition(spans: seq<Span>, c: nat, i: nat)
    requires i < |spans| && spans[i].chainId == c
    ensures var p := |SpansOf(spans[..i], c)|;
      && SpansOf(spans[..i + 1], c) == SpansOf(spans[..i], c) + [spans[i]]
      && p < |SpansOf(spans, c)| && SpansOf(spans, c)[p] == spans[i]
  {
    assert spans[..i + 1] == spans[..i] + [spans[i]];
    SpansSnoc(spans[..i], spans[i], c);
    SpansPrefix(spans, c, i + 1);
  }

  lemma SpanPositions(spans: seq<Span>, c: nat, i: nat, j: nat)
    requires i < j < |spans| && spans[i].chainId == spans[j].chainId == c
    ensures |SpansOf(spans[..i], c)| < |SpansOf(spans[..j], c)|
  {
    SpanPosition(spans, c, i);
    assert spans[..j][..i + 1] == spans[..i + 1];
    SpansPrefix(spans[..j], c, i + 1);
  }

  /** The same for the spans as they are listed. */
  lemma ListedSpansOrdered(legacy: nat, events: seq<Event>, spans: seq<Span>)
    requires Sorted(events, Leq) && Walk(legacy, events).Ok? && spans == Walk(legacy, events).value.spans
    ensures forall i :: 0 <= i < |spans| ==> spans[i].startedBlock <= spans[i].finalizedBlock
    ensures forall i, j :: 0 <= i < j < |spans| && spans[i].chainId == spans[j].chainId ==>
      spans[i].finalizedBlock <= spans[j].startedBlock
  {
    forall i | 0 <= i < |spans| ensures spans[i].startedBlock <= spans[i].finalizedBlock {
      SpansOrdered(legacy, events, spans[i].chainId);
      SpanPosition(spans, spans[i].chainId, i);
    }
    forall i, j | 0 <= i < j < |spans| && spans[i].chainId == spans[j].chainId
      ensures spans[i].finalizedBlock <= spans[j].startedBlock
    {
      var c := spans[i].chainId;
      SpansOrdered(legacy, events, c);
      SpanPosition(spans, c, i);
      SpanPosition(spans, c, j);
      SpanPositions(spans, c, i, j);
    }
  }

  // ----- the intervals -----

  datatype Interval = Interval(
    chainId: nat,
    migrateToGWBatchNumber: nat,
    migrateFromGWBatchNumber: nat,
    slBatchLowerBound: nat,
    slBatchUpperBound: nat)

  /** Executed-batch counters by diamond proxy and block. */
  type Counters = (nat, nat) -> nat

  function IntervalOf(executed: Counters, chainProxy: nat, gwProxy: nat, s: Span): Interval {
    Interval(s.chainId, executed(chainProxy, s.startedBlock), executed(chainProxy, s.finalizedBlock),
             executed(gwProxy, s.startedBlock), executed(gwProxy, s.finalizedBlock))
  }

  function IntervalsOf(executed: Counters, zkChain: nat -> nat, gwProxy: nat, spans: seq<Span>): (r: seq<Interval>)
    ensures |r| == |spans|
    ensures forall i :: 0 <= i < |r| ==> r[i] == IntervalOf(executed, zkChain(spans[i].chainId), gwProxy, spans[i])
  {
    if spans == [] then []
    else
      var n := |spans| - 1;
      IntervalsOf(executed, zkChain, gwProxy, spans[..n]) + [IntervalOf(executed, zkChain(spans[n].chainId), gwProxy, spans[n])]
  }

  function IntervalsFor(r: seq<Interval>, c: nat): seq<Interval> {
    if r == [] then []
    else
      var i := r[|r| - 1];
      IntervalsFor(r[..|r| - 1], c) + if i.chainId == c then [i] else []
  }

  /** The chain's and the gateway's counters, each read in the block of the start and of the return. */
  ghost predicate Measures(i: Interval, executed: Counters, chainProxy: nat, gwProxy: nat, start: Event, end: Event) {
    && i.migrateToGWBatchNumber == executed(chainProxy, start.block)
    && i.migrateFromGWBatchNumber == executed(chainProxy, end.block)
    && i.slBatchLowerBound == executed(gwProxy, start.block)
    && i.slBatchUpperBound == executed(gwProxy, end.block)
  }

  /** The intervals of chain `c` are those of the consecutive pairs of its events `p`. */
  ghost predicate MeasuresPairs(r: seq<Interval>, executed: Counters, chainProxy: nat, gwProxy: nat, p: seq<Event>) {
    |r| == |p| / 2 && forall k :: 0 <= k < |r| ==> Measures(r[k], executed, chainProxy, gwProxy, p[2 * k], p[2 * k + 1])
  }

  lemma {:induction false} IntervalsOfChain(executed: Counters, zkChain: nat -> nat, gwProxy: nat, spans: seq<Span>, c: nat)
    ensures IntervalsFor(IntervalsOf(executed, zkChain, gwProxy, spans), c) ==
      IntervalsOf(executed, zkChain, gwProxy, SpansOf(spans, c))
  {
    if spans != [] {
      var init, s := spans[..|spans| - 1], spans[|spans| - 1];
      IntervalsOfChain(executed, zkChain, gwProxy, init, c);
      IntervalsSnoc(executed, zkChain, gwProxy, SpansOf(init, c), s);
    }
  }

  /** Chain by chain, the derived intervals measure the consecutive pairs of events. */
  lemma IntervalsMeasurePairs(executed: Counters, zkChain: nat -> nat, gwProxy: nat, spans: seq<Span>, p: seq<Event>, c: nat)
    requires SpansOf(spans, c) == Pairs(p, c)
    ensures MeasuresPairs(IntervalsFor(IntervalsOf(executed, zkChain, gwProxy, spans), c), executed, zkChain(c), gwProxy, p)
  {
    IntervalsOfChain(executed, zkChain, gwProxy, spans, c);
  }

  ghost predicate NeverDecrease(executed: Counters) {
    forall proxy, a, b :: a <= b ==> executed(proxy, a) <= executed(proxy, b)
  }

  /** An interval's lower numbers are at most its upper numbers. */
  ghost predicate Ordered(a: Interval) {
    a.migrateToGWBatchNumber <= a.migrateFromGWBatchNumber && a.slBatchLowerBound <= a.slBatchUpperBound
  }

  /** `b` begins where `a` has ended, in the chain's batches and in the gateway's. */
  ghost predicate Follows(a: Interval, b: Interval) {
    a.migrateFromGWBatchNumber <= b.migrateToGWBatchNumber && a.slBatchUpperBound <= b.slBatchLowerBound
  }

  /** Every interval is ordered, and intervals of one chain follow each other without overlap. */
  ghost predicate IntervalsInOrder(r: seq<Interval>) {
    && (forall i :: 0 <= i < |r| ==> Ordered(r[i]))
    && (forall i, j :: 0 <= i < j < |r| && r[i].chainId == r[j].chainId ==> Follows(r[i], r[j]))
  }

  /**
   With counters that never decrease, whatever the script derives from whatever events it found is
   in order.
   */
  lemma IntervalsOrdered(legacy: nat, found: seq<Event>, executed: Counters, zkChain: nat -> nat, gwProxy: nat)
    requires Walk(legacy, Sort(found, Leq)).Ok? && NeverDecrease(executed)
    ensures IntervalsInOrder(IntervalsOf(executed, zkChain, gwProxy, Walk(legacy, Sort(found, Leq)).value.spans))
  {
    SortedByLeq(found);
    var spans := Walk(legacy, Sort(found, Leq)).value.spans;
    ListedSpansOrdered(legacy, Sort(found, Leq), spans);
  }

  lemma {:induction false} WalkPrefix(legacy: nat, events: seq<Event>, i: nat)
    requires i <= |events| && Walk(legacy, events).Ok?
    ensures Walk(legacy, events[..i]).Ok?
    decreases |events|
  {
    if i == |events| {
      assert events[..i] == events;
    } else {
      var prev := events[..|events| - 1];
      WalkPrefix(legacy, prev, i);
      assert prev[..i] == events[..i];
    }
  }

  lemma WalkStep(legacy: nat, events: seq<Event>, i: nat, s: State)
    requires i < |events| && Walk(legacy, events[..i]) == Ok(s)
    ensures Walk(legacy, events[..i + 1]) == Step(legacy, s, events[i])
    ensures Step(legacy, s, events[i]).Err? ==> Walk(legacy, events).Err?
  {
    assert events[..i + 1][..i] == events[..i];
    if Walk(legacy, events).Ok? {
      WalkPrefix(legacy, events, i + 1);
    }
  }

  lemma IntervalsSnoc(executed: Counters, zkChain: nat -> nat, gwProxy: nat, spans: seq<Span>, s: Span)
    ensures IntervalsOf(executed, zkChain, gwProxy, spans + [s]) ==
      IntervalsOf(executed, zkChain, gwProxy, spans) + [IntervalOf(executed, zkChain(s.chainId), gwProxy, s)]
  {
    assert (spans + [s])[..|spans|] == spans;
  }

  /** The proxies fetched in advance: one for every chain that ever started a migration. */
  method FetchProxies(allStarted: seq<Event>, zkChain: nat -> nat) returns (proxies: map<nat, nat>)
    ensures proxies.Keys == set e | e in allStarted :: e.chainId
    ensures forall c :: c in proxies ==> proxies[c] == zkChain(c)
  {
    proxies := map[];
    for i := 0 to |allStarted|
      invariant proxies.Keys == set e | e in allStarted[..i] :: e.chainId
      invariant forall c :: c in proxies ==> proxies[c] == zkChain(c)
    {
      var c := allStarted[i].chainId;
      assert allStarted[..i + 1] == allStarted[..i] + [allStarted[i]];
      if c !in proxies {
        proxies := proxies[c := zkChain(c)];
      }
    }
    assert allStarted[..|allStarted|] == allStarted;
  }

  /** Sorting, walking and reading the counters; the proxy of a finalized chain is always there. */
  method DeriveIntervals(allStarted: seq<Event>, allFinalized: seq<Event>, legacy: nat,
                         executed: Counters, zkChain: nat -> nat, gwProxy: nat)
    returns (r: Result<seq<Interval>>, open: map<nat, nat>)
    requires forall e :: e in allStarted ==> e.kind == Started
    requires forall e :: e in allFinalized ==> e.kind == Finalized
    ensures var w := Walk(legacy, Sort(allStarted + allFinalized, Leq));
      && (r.Ok? <==> w.Ok?)
      && (r.Ok? ==> r.value == IntervalsOf(executed, zkChain, gwProxy, w.value.spans) && open == w.value.open)
    ensures r.Ok? ==> forall c: nat ::
      MeasuresPairs(IntervalsFor(r.value, c), executed, zkChain(c), gwProxy, Of(Sort(allStarted + allFinalized, Leq), c))
    ensures r.Ok? && NeverDecrease(executed) ==> IntervalsInOrder(r.value)
  {
    var proxies := FetchProxies(allStarted, zkChain);
    var events := Sort(allStarted + allFinalized, Leq);
    var intervals: seq<Interval> := [];
    open := map[];
    ghost var spans: seq<Span> := [];
    for i := 0 to |events|
      invariant Walk(legacy, events[..i]) == Ok(State(open, spans))
      invariant intervals == IntervalsOf(executed, zkChain, gwProxy, spans)
      invariant open.Keys <= proxies.Keys
    {
      var e := events[i];
      WalkStep(legacy, events, i, State(open, spans));
      if e.kind == Started {
        if e.settlementLayer != legacy {
          return Err("MigrationStarted targets another settlement layer"), open;
        }
        if e.chainId in open {
          return Err("MigrationStarted for a chain with an open migration"), open;
        }
        StartedHasProxy(allStarted, allFinalized, events, e, proxies);
        open := open[e.chainId := e.block];
        continue;
      }
      if e.chainId !in open {
        return Err("MigrationFinalized with no preceding MigrationStarted"), open;
      }
      var startedBlock := open[e.chainId];
      open := open - {e.chainId};
      var span := Span(e.chainId, startedBlock, e.block);
      var chainProxy := proxies[e.chainId];
      IntervalsSnoc(executed, zkChain, gwProxy, spans, span);
      spans := spans + [span];
      intervals := intervals + [IntervalOf(executed, chainProxy, gwProxy, span)];
    }
    assert events[..|events|] == events;
    if NeverDecrease(executed) {
      IntervalsOrdered(legacy, allStarted + allFinalized, executed, zkChain, gwProxy);
    }
    WalkOutcome(legacy, events);
    forall c: nat ensures MeasuresPairs(IntervalsFor(intervals, c), executed, zkChain(c), gwProxy, Of(events, c)) {
      IntervalsMeasurePairs(executed, zkChain, gwProxy, spans, Of(events, c), c);
    }
    r := Ok(intervals);
  }

  lemma StartedHasProxy(allStarted: seq<Event>, allFinalized: seq<Event>, events: seq<Event>, e: Event, proxies: map<nat, nat>)
    requires multiset(events) == multiset(allStarted + allFinalized) && e in events && e.kind == Started
    requires forall x :: x in allFinalized ==> x.kind == Finalized
    requires proxies.Keys == set x | x in allStarted :: x.chainId
    ensures e.chainId in proxies
  {
    assert e in multiset(events);
    assert e in allStarted + allFinalized;
    assert e in allStarted;
  }
}
