/**
 Merging a Foundry and an Anvil coverage report. Foundry's files, lines and functions are the
 base; the rebased report shows Anvil's hits on that base, the merged report the larger of both.
 */
module LcovMerge {
  import opened Wrappers
  import opened Ordering
  import opened LcovFormat
  import opened LcovReport

  datatype AnvilFile = AnvilFile(lines: map<nat, nat>, functionHits: map<string, nat>)

  type Anvil = map<string, AnvilFile>

  const NoData := AnvilFile(map[], map[])

  function DataFor(anvil: Anvil, file: string): AnvilFile {
    if file in anvil then anvil[file] else NoData
  }

  function FnHits(calls: map<string, nat>, name: string): nat {
    if name in calls then calls[name] else 0
  }

  // ----- lines -----

  function RebasedLines(lines: map<nat, nat>, anvil: map<nat, nat>): map<nat, nat> {
    map n | n in lines :: HitsAt(anvil, n)
  }

  function MergedLines(lines: map<nat, nat>, anvil: map<nat, nat>): map<nat, nat> {
    map n | n in lines :: Max(lines[n], HitsAt(anvil, n))
  }

  // ----- function records, read as items -----

  function RebasedItem(i: Item, calls: map<string, nat>): Item {
    if i.Calls? then Calls(Some(FnHits(calls, i.name)), i.name) else i
  }

  function MergedItem(i: Item, calls: map<string, nat>): Item {
    if i.Calls? && i.hits.Some? then Calls(Some(Max(i.hits.value, FnHits(calls, i.name))), i.name) else i
  }

  function Counted(i: Item, count: nat): Item {
    if i.FunctionsHit? then FunctionsHit(Some(count)) else i
  }

  function Bumped(i: Item, k: nat): Item {
    if i.FunctionsHit? && i.count.Some? then FunctionsHit(Some(i.count.value + k)) else i
  }

  predicate IsHit(i: Item) {
    i.Calls? && i.hits.Some? && i.hits.value > 0
  }

  /** A function only Anvil reached. */
  predicate IsEnhanced(i: Item, calls: map<string, nat>) {
    i.Calls? && i.hits == Some(0) && FnHits(calls, i.name) > 0
  }

  function Count(items: seq<Item>, p: Item -> bool): nat {
    if items == [] then 0 else Count(items[..|items| - 1], p) + (if p(items[|items| - 1]) then 1 else 0)
  }

  lemma ApplySnoc<S, T>(s: seq<S>, f: S -> T)
    requires s != []
    ensures Apply(s, f)[..|s| - 1] == Apply(s[..|s| - 1], f)
  {
  }

  /** Every count of functions hit is the number of functions with hits. */
  ghost predicate Consistent(items: seq<Item>) {
    forall i :: 0 <= i < |items| && items[i].FunctionsHit? ==> items[i].count == Some(Count(items, IsHit))
  }

  /** Mapping items does not change how many satisfy a predicate that the mapping respects. */
  lemma {:induction false} CountMapped(items: seq<Item>, f: Item -> Item, p: Item -> bool, q: Item -> bool)
    requires forall i :: q(f(i)) <==> p(i)
    ensures Count(Apply(items, f), q) == Count(items, p)
  {
    if items != [] {
      ApplySnoc(items, f);
      CountMapped(items[..|items| - 1], f, p, q);
    }
  }

  lemma {:induction false} CountMerged(items: seq<Item>, calls: map<string, nat>, merge: Item -> Item, enhanced: Item -> bool)
    requires (forall i :: merge(i) == MergedItem(i, calls)) && forall i :: enhanced(i) <==> IsEnhanced(i, calls)
    ensures Count(Apply(items, merge), IsHit) == Count(items, IsHit) + Count(items, enhanced)
  {
    if items != [] {
      ApplySnoc(items, merge);
      CountMerged(items[..|items| - 1], calls, merge, enhanced);
    }
  }

  function Rebase(calls: map<string, nat>): Item -> Item { i => RebasedItem(i, calls) }

  function Merge(calls: map<string, nat>): Item -> Item { i => MergedItem(i, calls) }

  function SetCount(count: nat): Item -> Item { i => Counted(i, count) }

  function Bump(k: nat): Item -> Item { i => Bumped(i, k) }

  function Reached(calls: map<string, nat>): Item -> bool { (i: Item) => i.Calls? && FnHits(calls, i.name) > 0 }

  function Enhanced(calls: map<string, nat>): Item -> bool { i => IsEnhanced(i, calls) }

  function RebasedItems(items: seq<Item>, calls: map<string, nat>): seq<Item> {
    Apply(Apply(items, Rebase(calls)), SetCount(Count(items, Reached(calls))))
  }

  function MergedItems(items: seq<Item>, calls: map<string, nat>): seq<Item> {
    Apply(Apply(items, Merge(calls)), Bump(Count(items, Enhanced(calls))))
  }

  /** The rebased report counts its functions right, whatever Foundry's count was. */
  lemma RebasedConsistent(items: seq<Item>, calls: map<string, nat>)
    ensures Consistent(RebasedItems(items, calls))
  {
    var hit := Count(items, Reached(calls));
    CountMapped(items, Rebase(calls), Reached(calls), IsHit);
    CountMapped(Apply(items, Rebase(calls)), SetCount(hit), IsHit, IsHit);
  }

  lemma MergedCounts(items: seq<Item>, calls: map<string, nat>)
    ensures Count(MergedItems(items, calls), IsHit) == Count(items, IsHit) + Count(items, Enhanced(calls))
  {
    CountMerged(items, calls, Merge(calls), Enhanced(calls));
    CountMapped(Apply(items, Merge(calls)), Bump(Count(items, Enhanced(calls))), IsHit, IsHit);
  }

  lemma MergedFunctionsHit(items: seq<Item>, calls: map<string, nat>, i: nat)
    requires i < |items|
    ensures |MergedItems(items, calls)| == |items|
    ensures MergedItems(items, calls)[i].FunctionsHit? <==> items[i].FunctionsHit?
    ensures items[i].FunctionsHit? ==> MergedItems(items, calls)[i] == Bumped(items[i], Count(items, Enhanced(calls)))
  {
    assert Apply(items, Merge(calls))[i] == MergedItem(items[i], calls);
  }

  lemma BumpedConsistent(items: seq<Item>, result: seq<Item>, k: nat)
    requires |result| == |items| && Count(result, IsHit) == Count(items, IsHit) + k
    requires forall i :: 0 <= i < |items| ==> (result[i].FunctionsHit? <==> items[i].FunctionsHit?)
    requires forall i :: 0 <= i < |items| && items[i].FunctionsHit? ==> result[i] == Bumped(items[i], k)
    ensures Consistent(result) <==> Consistent(items)
  {
  }

  /** The merged report counts its functions right exactly when Foundry's did. */
  lemma MergedConsistent(items: seq<Item>, calls: map<string, nat>)
    ensures Consistent(MergedItems(items, calls)) <==> Consistent(items)
  {
    var result, k := MergedItems(items, calls), Count(items, Enhanced(calls));
    MergedCounts(items, calls);
    forall i | 0 <= i < |items|
      ensures |result| == |items| && (result[i].FunctionsHit? <==> items[i].FunctionsHit?)
      ensures items[i].FunctionsHit? ==> result[i] == Bumped(items[i], k)
    {
      MergedFunctionsHit(items, calls, i);
    }
    assert |result| == |items|;
    BumpedConsistent(items, result, k);
  }

  /** What rebasing and merging make of each item. */
  lemma ItemLaw(items: seq<Item>, calls: map<string, nat>, i: nat)
    requires i < |items|
    ensures |RebasedItems(items, calls)| == |MergedItems(items, calls)| == |items|
    ensures var r, m := RebasedItems(items, calls)[i], MergedItems(items, calls)[i];
      match items[i]
      case Calls(hits, name) =>
        && r == Calls(Some(if name in calls then calls[name] else 0), name)
        && m == Calls(if hits.Some? then Some(Max(hits.value, r.hits.value)) else None, name)
      case FunctionsHit(_) => r.FunctionsHit? && m.FunctionsHit?
      case Verbatim(_) => r == m == items[i]
  {
    assert Apply(items, Rebase(calls))[i] == RebasedItem(items[i], calls);
    assert Apply(items, Merge(calls))[i] == MergedItem(items[i], calls);
  }
}
