/**
 Finding the block the gateway was deployed in, and scanning from there in fixed chunks over two
 contracts, keeping each event once.
 */
module MigrationScan {
  import opened Ordering
  import opened LogPagination
  import opened MigrationEvents

  const BLOCK_STEP: int := 10_000

  // ----- binary search -----

  ghost predicate StaysDeployed(deployed: int -> bool) {
    forall a, b :: a <= b && deployed(a) ==> deployed(b)
  }

  /** The least block of `[lo, hi]` with code. */
  ghost predicate FirstDeployed(deployed: int -> bool, lo: int, hi: int, r: int) {
    lo <= r <= hi && deployed(r) && forall b :: lo <= b < r ==> !deployed(b)
  }

  method BinarySearchDeployBlock(deployed: int -> bool, lo0: int, hi0: int) returns (r: int)
    requires lo0 <= hi0
    ensures lo0 <= r <= hi0
    ensures r < hi0 ==> deployed(r)
    ensures r > lo0 ==> !deployed(r - 1)
    ensures StaysDeployed(deployed) ==> (FirstDeployed(deployed, lo0, hi0, r) <==> deployed(hi0))
  {
    var lo, hi := lo0, hi0;
    while lo < hi
      invariant lo0 <= lo <= hi <= hi0
      invariant hi < hi0 ==> deployed(hi)
      invariant lo > lo0 ==> !deployed(lo - 1)
    {
      var mid := (lo + hi) / 2;
      if deployed(mid) {
        hi := mid;
      } else {
        lo := mid + 1;
      }
    }
    r := lo;
  }

  // ----- the chunked scan -----

  type Source = int -> seq<Event>

  /** The events of both contracts in a block range. */
  ghost function Both(bh: Source, cah: Source, lo: int, hi: int): set<Event> {
    Elements(Range(bh, lo, hi)) + Elements(Range(cah, lo, hi))
  }

  ghost function Keys(events: set<Event>): set<(string, nat)> {
    set e | e in events :: Key(e)
  }

  /** A transaction hash and log index name one event. */
  ghost predicate KeysIdentify(events: set<Event>) {
    forall a, b :: a in events && b in events && Key(a) == Key(b) ==> a == b
  }

  /** `all` lists each event of `events` exactly once. */
  ghost predicate Holding(all: seq<Event>, events: set<Event>) {
    Distinct(all) && Elements(all) == events
  }

  lemma KeysUnion(a: set<Event>, b: set<Event>)
    ensures Keys(a + b) == Keys(a) + Keys(b)
  {
  }

  /** Appending the events of a batch whose key is new. */
  method Keep(all0: seq<Event>, batch: seq<Event>, seen0: set<(string, nat)>, ghost others: set<Event>, ghost universe: set<Event>)
    returns (all: seq<Event>, seen: set<(string, nat)>)
    requires Distinct(all0) && seen0 == Keys(Elements(all0) + others)
    requires KeysIdentify(universe) && Elements(all0) + others + Elements(batch) <= universe
    requires Elements(batch) !! others
    ensures Holding(all, Elements(all0) + Elements(batch))
    ensures seen == Keys(Elements(all) + others)
  {
    all, seen := all0, seen0;
    for i := 0 to |batch|
      invariant Holding(all, Elements(all0) + Elements(batch[..i]))
      invariant seen == Keys(Elements(all) + others)
    {
      var ev := batch[i];
      ElementsSnoc(batch, i);
      assert ev in Elements(batch);
      if Key(ev) in seen {
        ghost var e :| e in Elements(all) + others && Key(e) == Key(ev);
        assert e == ev;
      } else {
        assert ev !in all;
        KeepStep(all, others, ev);
        seen := seen + {Key(ev)};
        all := all + [ev];
      }
    }
    assert batch[..|batch|] == batch;
  }

  lemma KeepStep(all: seq<Event>, others: set<Event>, ev: Event)
    ensures Elements(all + [ev]) == Elements(all) + {ev}
    ensures Keys(Elements(all + [ev]) + others) == Keys(Elements(all) + others) + {Key(ev)}
  {
    assert Elements(all + [ev]) + others == (Elements(all) + others) + {ev};
    KeysUnion(Elements(all) + others, {ev});
    assert Keys({ev}) == {Key(ev)};
  }

  ghost predicate Emits(source: Source, kind: Kind) {
    forall b, e :: e in source(b) ==> e.kind == kind
  }

  lemma {:induction false} RangeKind(source: Source, kind: Kind, lo: int, hi: int)
    requires Emits(source, kind)
    ensures forall e :: e in Range(source, lo, hi) ==> e.kind == kind
    decreases hi - lo
  {
    if lo <= hi {
      RangeKind(source, kind, lo, hi - 1);
    }
  }

  lemma BothSplit(bh: Source, cah: Source, lo: int, mid: int, hi: int)
    requires lo <= mid + 1 && mid <= hi
    ensures Both(bh, cah, lo, hi) == Both(bh, cah, lo, mid) + Both(bh, cah, mid + 1, hi)
  {
    RangeSplit(bh, lo, mid, hi);
    RangeSplit(cah, lo, mid, hi);
    ElementsConcat(Range(bh, lo, mid), Range(bh, mid + 1, hi));
    ElementsConcat(Range(cah, lo, mid), Range(cah, mid + 1, hi));
  }

  lemma BothKind(bh: Source, cah: Source, kind: Kind, lo: int, hi: int)
    requires Emits(bh, kind) && Emits(cah, kind)
    ensures forall e :: e in Both(bh, cah, lo, hi) ==> e.kind == kind
  {
    RangeKind(bh, kind, lo, hi);
    RangeKind(cah, kind, lo, hi);
  }

  /** One pass of `Keep` over the batch of both contracts for a chunk. */
  method KeepChunk(all0: seq<Event>, bh: Source, cah: Source, kind: Kind, first: int, from: int, to: int,
                   seen0: set<(string, nat)>, ghost others: set<Event>, ghost universe: set<Event>)
    returns (all: seq<Event>, seen: set<(string, nat)>)
    requires first <= from <= to && Emits(bh, kind) && Emits(cah, kind)
    requires Holding(all0, Both(bh, cah, first, from - 1)) && seen0 == Keys(Elements(all0) + others)
    requires forall e :: e in others ==> e.kind != kind
    requires KeysIdentify(universe) && Both(bh, cah, first, to) + others <= universe
    ensures Holding(all, Both(bh, cah, first, to)) && seen == Keys(Elements(all) + others)
  {
    var batch := Range(bh, from, to) + Range(cah, from, to);
    ElementsConcat(Range(bh, from, to), Range(cah, from, to));
    BothSplit(bh, cah, first, from - 1, to);
    BothKind(bh, cah, kind, from, to);
    all, seen := Keep(all0, batch, seen0, others, universe);
  }

  /**
   The chunks tile the range: afterwards each event of either contract in it has been kept exactly
   once, in the list of its kind.
   */
  method ScanChunks(bhStarted: Source, bhFinalized: Source, cahStarted: Source, cahFinalized: Source,
                    firstBlock: int, latestBlock: int)
    returns (allStarted: seq<Event>, allFinalized: seq<Event>)
    requires firstBlock <= latestBlock + 1
    requires Emits(bhStarted, Started) && Emits(cahStarted, Started)
    requires Emits(bhFinalized, Finalized) && Emits(cahFinalized, Finalized)
    requires KeysIdentify(Both(bhStarted, cahStarted, firstBlock, latestBlock) + Both(bhFinalized, cahFinalized, firstBlock, latestBlock))
    ensures Holding(allStarted, Both(bhStarted, cahStarted, firstBlock, latestBlock))
    ensures Holding(allFinalized, Both(bhFinalized, cahFinalized, firstBlock, latestBlock))
  {
    allStarted, allFinalized := [], [];
    var seenKeys: set<(string, nat)> := {};
    ghost var universe := Both(bhStarted, cahStarted, firstBlock, latestBlock) + Both(bhFinalized, cahFinalized, firstBlock, latestBlock);
    var from := firstBlock;
    ghost var done := firstBlock - 1;
    while from <= latestBlock
      invariant firstBlock <= from && done == Min(from - 1, latestBlock)
      invariant Holding(allStarted, Both(bhStarted, cahStarted, firstBlock, done))
      invariant Holding(allFinalized, Both(bhFinalized, cahFinalized, firstBlock, done))
      invariant seenKeys == Keys(Elements(allStarted) + Elements(allFinalized))
    {
      var to := Min(from + BLOCK_STEP - 1, latestBlock);
      BothSplit(bhStarted, cahStarted, firstBlock, to, latestBlock);
      BothSplit(bhFinalized, cahFinalized, firstBlock, done, latestBlock);
      BothSplit(bhFinalized, cahFinalized, firstBlock, to, latestBlock);
      BothKind(bhFinalized, cahFinalized, Finalized, firstBlock, done);
      BothKind(bhStarted, cahStarted, Started, firstBlock, to);
      allStarted, seenKeys := KeepChunk(allStarted, bhStarted, cahStarted, Started, firstBlock, from, to,
                                        seenKeys, Elements(allFinalized), universe);
      assert Elements(allStarted) + Elements(allFinalized) == Elements(allFinalized) + Elements(allStarted);
      allFinalized, seenKeys := KeepChunk(allFinalized, bhFinalized, cahFinalized, Finalized, firstBlock, from, to,
                                          seenKeys, Elements(allStarted), universe);
      assert Elements(allStarted) + Elements(allFinalized) == Elements(allFinalized) + Elements(allStarted);
      from := from + BLOCK_STEP;
      done := to;
    }
  }
}
