/**
 The `collect` command as a whole: search the block of deployment, scan from there, sort, walk, and
 derive the intervals.
 */
module MigrationCollect {
  import opened Wrappers
  import opened Ordering
  import opened MigrationEvents
  import opened MigrationScan
  import opened MigrationWalk
  import opened MigrationOrder

  /** The events of the two contracts, by block. */
  datatype Sources = Sources(bhStarted: Source, bhFinalized: Source, cahStarted: Source, cahFinalized: Source)

  ghost predicate KindsMatch(s: Sources) {
    Emits(s.bhStarted, Started) && Emits(s.cahStarted, Started) && Emits(s.bhFinalized, Finalized) && Emits(s.cahFinalized, Finalized)
  }

  ghost function AllEvents(s: Sources, lo: int, hi: int): set<Event> {
    Both(s.bhStarted, s.cahStarted, lo, hi) + Both(s.bhFinalized, s.cahFinalized, lo, hi)
  }

  /** `h` is what the chain emitted in the blocks `first` to `latest`, in order of emission. */
  ghost predicate Records(h: seq<Event>, s: Sources, first: int, latest: int) {
    Sorted(h, Emitted) && Elements(h) == AllEvents(s, first, latest)
  }

  /** The kept events are the history, in some order. */
  lemma KeptIsHistory(h: seq<Event>, started: seq<Event>, finalized: seq<Event>)
    requires Sorted(h, Emitted) && Distinct(started) && Distinct(finalized)
    requires Elements(h) == Elements(started) + Elements(finalized)
    requires (forall e :: e in started ==> e.kind == Started) && forall e :: e in finalized ==> e.kind == Finalized
    ensures multiset(started + finalized) == multiset(h)
  {
    var all := started + finalized;
    assert Distinct(all);
    assert Distinct(h);
    DistinctMultiset(all);
    DistinctMultiset(h);
    ElementsConcat(started, finalized);
    assert (set e | e in all) == Elements(all) && (set e | e in h) == Elements(h);
  }

  lemma HoldingKind(all: seq<Event>, bh: Source, cah: Source, kind: Kind, lo: int, hi: int)
    requires Holding(all, Both(bh, cah, lo, hi)) && Emits(bh, kind) && Emits(cah, kind)
    ensures forall e :: e in all ==> e.kind == kind
  {
    BothKind(bh, cah, kind, lo, hi);
    forall e | e in all ensures e.kind == kind {
      assert e in Elements(all);
    }
  }

  /**
   What is found about chain `c`, whose events are `p`: for the `k`-th migration the numbers of
   batches the chain and the gateway had executed in the blocks of its start and its return, and
   whether the chain is still away.
   */
  ghost predicate Found(c: nat, p: seq<Event>, executed: Counters, chainProxy: nat, gwProxy: nat,
                        intervals: seq<Interval>, open: map<nat, nat>) {
    && MeasuresPairs(IntervalsFor(intervals, c), executed, chainProxy, gwProxy, p)
    && (c in open <==> |p| % 2 == 1)
    && (c in open ==> open[c] == p[|p| - 1].block)
  }

  /**
   The outcome for a history `h`: success exactly when it can be walked once sorted, which for a
   proper history means that no chain restarts in the block of its return. Then every chain's
   intervals are those of its consecutive events.
   */
  ghost predicate Outcome(h: seq<Event>, legacy: nat, executed: Counters, zkChain: nat -> nat, gwProxy: nat,
                          r: Result<seq<Interval>>, open: map<nat, nat>) {
    && (r.Ok? <==> WellPaired(legacy, Sort(h, Leq)))
    && (History(legacy, h) ==> (r.Ok? <==> !RestartsInBlock(h)))
    && (r.Ok? ==> forall c: nat :: Found(c, Of(Sort(h, Leq), c), executed, zkChain(c), gwProxy, r.value, open))
    && (r.Ok? && History(legacy, h) ==> forall c: nat :: Found(c, Of(h, c), executed, zkChain(c), gwProxy, r.value, open))
  }

  /**
   For every history and every way the two contracts report it: the command scans from the block of
   deployment, and what it returns is the outcome for the history from there on, with intervals in
   order. `history(b)` is what was emitted from block `b` on.
   */
  method Collect(deployed: int -> bool, s: Sources, latest: int, legacy: nat, executed: Counters,
                 zkChain: nat -> nat, gwProxy: nat, ghost history: int -> seq<Event>)
    returns (first: int, r: Result<seq<Interval>>, open: map<nat, nat>)
    requires latest >= 0 && KindsMatch(s)
    requires forall b :: 0 <= b <= latest ==> Records(history(b), s, b, latest) && KeysIdentify(Elements(history(b)))
    ensures 0 <= first <= latest && (first < latest ==> deployed(first)) && (first > 0 ==> !deployed(first - 1))
    ensures StaysDeployed(deployed) ==> (FirstDeployed(deployed, 0, latest, first) <==> deployed(latest))
    ensures Outcome(history(first), legacy, executed, zkChain, gwProxy, r, open)
    ensures r.Ok? && NeverDecrease(executed) ==> IntervalsInOrder(r.value)
  {
    first := BinarySearchDeployBlock(deployed, 0, latest);
    r, open := CollectFrom(s, first, latest, legacy, executed, zkChain, gwProxy, history(first));
  }

  /** Scanning, sorting and walking from block `first` on. */
  method CollectFrom(s: Sources, first: int, latest: int, legacy: nat, executed: Counters,
                     zkChain: nat -> nat, gwProxy: nat, ghost h: seq<Event>)
    returns (r: Result<seq<Interval>>, open: map<nat, nat>)
    requires first <= latest && KindsMatch(s) && Records(h, s, first, latest) && KeysIdentify(Elements(h))
    ensures Outcome(h, legacy, executed, zkChain, gwProxy, r, open)
    ensures r.Ok? && NeverDecrease(executed) ==> IntervalsInOrder(r.value)
  {
    var started, finalized := ScanChunks(s.bhStarted, s.bhFinalized, s.cahStarted, s.cahFinalized, first, latest);
    HoldingKind(started, s.bhStarted, s.cahStarted, Started, first, latest);
    HoldingKind(finalized, s.bhFinalized, s.cahFinalized, Finalized, first, latest);
    KeptIsHistory(h, started, finalized);
    HistoryTotal(h);
    SortCanonical(h, started + finalized, Leq);
    r, open := DeriveIntervals(started, finalized, legacy, executed, zkChain, gwProxy);
    OutcomeOfWalk(h, Sort(h, Leq), legacy, executed, zkChain, gwProxy, r, open);
  }

  lemma OutcomeOfWalk(h: seq<Event>, sorted: seq<Event>, legacy: nat, executed: Counters, zkChain: nat -> nat, gwProxy: nat,
                      r: Result<seq<Interval>>, open: map<nat, nat>)
    requires Sorted(h, Emitted) && sorted == Sort(h, Leq) && (r.Ok? <==> Walk(legacy, sorted).Ok?)
    requires r.Ok? ==> open == Walk(legacy, sorted).value.open
    requires r.Ok? ==> forall c: nat :: MeasuresPairs(IntervalsFor(r.value, c), executed, zkChain(c), gwProxy, Of(sorted, c))
    ensures Outcome(h, legacy, executed, zkChain, gwProxy, r, open)
  {
    WalkOutcome(legacy, sorted);
    if History(legacy, h) {
      AcceptedExactlyWithoutRestart(legacy, h);
    }
    if r.Ok? {
      forall c: nat ensures Found(c, Of(sorted, c), executed, zkChain(c), gwProxy, r.value, open) {
        assert Describes(Walk(legacy, sorted).value, Of(sorted, c), c);
      }
    }
  }
}
