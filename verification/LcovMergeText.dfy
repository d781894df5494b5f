/** Rebasing and merging on the verbatim lines of a record, and on whole reports. */
module LcovMergeText {
  import opened Wrappers
  import opened Ordering
  import opened LcovFormat
  import opened LcovReport
  import opened LcovFile
  import opened LcovMerge

  function Items(preamble: seq<string>): seq<Item> {
    Apply(preamble, ItemOf)
  }

  // ----- one line -----

  function RebasedText(t: string, calls: map<string, nat>): string {
    match ItemOf(t)
    case Calls(_, name) => CallsText(FnHits(calls, name), name)
    case _ => t
  }

  function CountedText(t: string, count: nat): string {
    if ItemOf(t).FunctionsHit? then FunctionsHitText(Some(count)) else t
  }

  function MergedText(t: string, calls: map<string, nat>): string {
    match ItemOf(t)
    case Calls(Some(hits), name) => if FnHits(calls, name) > hits then CallsText(FnHits(calls, name), name) else t
    case _ => t
  }

  function BumpedText(t: string, k: nat): string {
    match ItemOf(t)
    case FunctionsHit(Some(count)) => FunctionsHitText(Some(count + k))
    case FunctionsHit(None) => FunctionsHitText(None)
    case _ => t
  }

  lemma RebasedTextItem(t: string, calls: map<string, nat>)
    ensures ItemOf(RebasedText(t, calls)) == RebasedItem(ItemOf(t), calls)
  {
    var i := ItemOf(t);
    if i.Calls? { CallsRoundTrip(FnHits(calls, i.name), i.name); }
  }

  lemma MergedTextItem(t: string, calls: map<string, nat>)
    ensures ItemOf(MergedText(t, calls)) == MergedItem(ItemOf(t), calls)
  {
    var i := ItemOf(t);
    if i.Calls? { CallsRoundTrip(FnHits(calls, i.name), i.name); }
  }

  lemma CountedTextItem(t: string, count: nat)
    ensures ItemOf(CountedText(t, count)) == Counted(ItemOf(t), count)
  {
    FunctionsHitRoundTrip(count);
  }

  lemma BumpedTextItem(t: string, k: nat)
    ensures ItemOf(BumpedText(t, k)) == Bumped(ItemOf(t), k)
  {
    var i := ItemOf(t);
    if i.FunctionsHit? {
      if i.count.Some? { FunctionsHitRoundTrip(i.count.value + k); } else { NotANumber(); }
    }
  }

  lemma CallsStayPlain(t: string, calls: map<string, nat>)
    requires IsPlain(t)
    ensures IsPlain(RebasedText(t, calls)) && IsPlain(MergedText(t, calls))
  {
    var i := ItemOf(t);
    if i.Calls? {
      NameOnOneLine(t);
      CallsTextPlain(FnHits(calls, i.name), i.name);
    }
  }

  lemma CountedStaysPlain(t: string, k: nat)
    requires IsPlain(t)
    ensures IsPlain(CountedText(t, k))
  {
    FunctionsHitTextPlain(Some(k));
  }

  lemma BumpedStaysPlain(t: string, k: nat)
    requires IsPlain(t)
    ensures IsPlain(BumpedText(t, k))
  {
    var i := ItemOf(t);
    if i.FunctionsHit? {
      FunctionsHitTextPlain(if i.count.Some? then Some(i.count.value + k) else None);
    }
  }

  lemma CountsStayPlain(t: string, k: nat)
    requires IsPlain(t)
    ensures IsPlain(CountedText(t, k)) && IsPlain(BumpedText(t, k))
  {
    CountedStaysPlain(t, k);
    BumpedStaysPlain(t, k);
  }

  // ----- the lines of a record -----

  function RebaseText(calls: map<string, nat>): string -> string { t => RebasedText(t, calls) }

  function MergeText(calls: map<string, nat>): string -> string { t => MergedText(t, calls) }

  function CountText(count: nat): string -> string { t => CountedText(t, count) }

  function BumpText(k: nat): string -> string { t => BumpedText(t, k) }

  function RebasedPreamble(p: seq<string>, calls: map<string, nat>): seq<string> {
    Apply(Apply(p, RebaseText(calls)), CountText(Count(Items(p), Reached(calls))))
  }

  /** The count is only touched when a function was added. */
  function MergedPreamble(p: seq<string>, calls: map<string, nat>): seq<string> {
    var q, k := Apply(p, MergeText(calls)), Count(Items(p), Enhanced(calls));
    if k > 0 then Apply(q, BumpText(k)) else q
  }

  /** Reading the changed lines is changing the read lines. */
  lemma ApplyThrough(p: seq<string>, of: string -> Item, f: string -> string, g: Item -> Item)
    requires forall t :: of(f(t)) == g(of(t))
    ensures Apply(Apply(p, f), of) == Apply(Apply(p, of), g)
  {
  }

  lemma RebasedPreambleItems(p: seq<string>, calls: map<string, nat>)
    ensures Items(RebasedPreamble(p, calls)) == RebasedItems(Items(p), calls)
  {
    var count := Count(Items(p), Reached(calls));
    forall t ensures ItemOf(RebaseText(calls)(t)) == Rebase(calls)(ItemOf(t)) { RebasedTextItem(t, calls); }
    ApplyThrough(p, ItemOf, RebaseText(calls), Rebase(calls));
    forall t ensures ItemOf(CountText(count)(t)) == SetCount(count)(ItemOf(t)) { CountedTextItem(t, count); }
    ApplyThrough(Apply(p, RebaseText(calls)), ItemOf, CountText(count), SetCount(count));
  }

  lemma BumpNothing(items: seq<Item>)
    ensures Apply(items, Bump(0)) == items
  {
  }

  lemma MergeThrough(p: seq<string>, calls: map<string, nat>)
    ensures Items(Apply(p, MergeText(calls))) == Apply(Items(p), Merge(calls))
  {
    forall t ensures ItemOf(MergeText(calls)(t)) == Merge(calls)(ItemOf(t)) { MergedTextItem(t, calls); }
    ApplyThrough(p, ItemOf, MergeText(calls), Merge(calls));
  }

  lemma BumpThrough(p: seq<string>, k: nat)
    ensures Items(Apply(p, BumpText(k))) == Apply(Items(p), Bump(k))
  {
    forall t ensures ItemOf(BumpText(k)(t)) == Bump(k)(ItemOf(t)) { BumpedTextItem(t, k); }
    ApplyThrough(p, ItemOf, BumpText(k), Bump(k));
  }

  lemma BumpedItems(p: seq<string>, calls: map<string, nat>, k: nat)
    requires k == Count(Items(p), Enhanced(calls)) > 0
    ensures Items(MergedPreamble(p, calls)) == MergedItems(Items(p), calls)
  {
    MergeThrough(p, calls);
    BumpThrough(Apply(p, MergeText(calls)), k);
  }

  lemma UnbumpedItems(p: seq<string>, calls: map<string, nat>)
    requires Count(Items(p), Enhanced(calls)) == 0
    ensures Items(MergedPreamble(p, calls)) == MergedItems(Items(p), calls)
  {
    MergeThrough(p, calls);
    BumpNothing(Apply(Items(p), Merge(calls)));
  }

  lemma MergedPreambleItems(p: seq<string>, calls: map<string, nat>)
    ensures Items(MergedPreamble(p, calls)) == MergedItems(Items(p), calls)
  {
    var k := Count(Items(p), Enhanced(calls));
    if k > 0 {
      BumpedItems(p, calls, k);
    } else {
      UnbumpedItems(p, calls);
    }
  }

  lemma ApplyKeepsPlain(p: seq<string>, f: string -> string)
    requires PlainTexts(p) && forall t :: t in p ==> IsPlain(f(t))
    ensures PlainTexts(Apply(p, f))
  {
  }

  lemma PreamblesStayPlain(p: seq<string>, calls: map<string, nat>)
    requires PlainTexts(p)
    ensures PlainTexts(RebasedPreamble(p, calls)) && PlainTexts(MergedPreamble(p, calls))
  {
    forall t | t in p ensures IsPlain(RebaseText(calls)(t)) && IsPlain(MergeText(calls)(t)) { CallsStayPlain(t, calls); }
    var r, m := Apply(p, RebaseText(calls)), Apply(p, MergeText(calls));
    ApplyKeepsPlain(p, RebaseText(calls));
    ApplyKeepsPlain(p, MergeText(calls));
    var count, k := Count(Items(p), Reached(calls)), Count(Items(p), Enhanced(calls));
    forall t | t in r ensures IsPlain(CountText(count)(t)) { CountsStayPlain(t, count); }
    forall t | t in m ensures IsPlain(BumpText(k)(t)) { CountsStayPlain(t, k); }
    ApplyKeepsPlain(r, CountText(count));
    ApplyKeepsPlain(m, BumpText(k));
  }

  // ----- whole reports -----

  function RebasedRecord(r: FileRecord, a: AnvilFile): FileRecord {
    FileRecord(RebasedPreamble(r.preamble, a.functionHits), RebasedLines(r.lines, a.lines))
  }

  function MergedRecord(r: FileRecord, a: AnvilFile): FileRecord {
    FileRecord(MergedPreamble(r.preamble, a.functionHits), MergedLines(r.lines, a.lines))
  }

  function RebasedFiles(files: Files, anvil: Anvil): Files {
    map f | f in files :: RebasedRecord(files[f], DataFor(anvil, f))
  }

  function MergedFiles(files: Files, anvil: Anvil): Files {
    map f | f in files :: MergedRecord(files[f], DataFor(anvil, f))
  }

  lemma OutputsProper(files: Files, anvil: Anvil)
    requires Proper(files)
    ensures Proper(RebasedFiles(files, anvil)) && Proper(MergedFiles(files, anvil))
  {
    forall f | f in files
      ensures PlainTexts(RebasedFiles(files, anvil)[f].preamble) && PlainTexts(MergedFiles(files, anvil)[f].preamble)
    {
      PreamblesStayPlain(files[f].preamble, DataFor(anvil, f).functionHits);
    }
  }
}
