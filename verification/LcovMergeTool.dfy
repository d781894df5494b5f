/** The coverage merge as it works: reading Anvil's report, the rebase loop and the merge loop. */
module LcovMergeTool {
  import opened Wrappers
  import opened Ordering
  import opened LcovFormat
  import opened LcovReport
  import opened LcovFile
  import opened LcovTool
  import opened LcovMerge
  import opened LcovMergeText

  // ----- Anvil's report -----

  datatype AnvilState = AnvilState(files: Anvil, current: string, lines: map<nat, nat>, calls: map<string, nat>)

  const AnvilStart := AnvilState(map[], "", map[], map[])

  function RaiseCalls(calls: map<string, nat>, item: Item): map<string, nat> {
    match item
    case Calls(Some(h), name) => calls[name := Max(FnHits(calls, name), h)]
    case _ => calls
  }

  /** A later record of a file replaces an earlier one. */
  function AnvilStep(st: AnvilState, e: Entry): AnvilState {
    if e.Source? then AnvilState(st.files, e.file, map[], map[])
    else if st.current == "" then st
    else match e
      case Data(n, h) => st.(lines := Raise(st.lines, n, h))
      case Plain(text) => st.(calls := RaiseCalls(st.calls, ItemOf(text)))
      case End => st.(files := st.files[st.current := AnvilFile(st.lines, st.calls)], current := "")
      case _ => st
  }

  function AnvilRun(es: seq<Entry>): AnvilState {
    if es == [] then AnvilStart else AnvilStep(AnvilRun(es[..|es| - 1]), es[|es| - 1])
  }

  function AnvilText(content: string): Anvil {
    AnvilRun(EntriesOf(content)).files
  }

  /** Inside a record every function record starts with a number, too. */
  predicate AnvilWellFormed(content: string) {
    var es := EntriesOf(content);
    && WellFormed(content)
    && forall i :: 0 <= i < |es| && es[i].Plain? && IsUncounted(ItemOf(es[i].text)) ==> Run(Start, es[..i]).current == ""
  }

  /** A function record without a number in front. */
  predicate IsUncounted(item: Item) {
    item.Calls? && item.hits.None?
  }

  /** `a` adds nothing to `b`. */
  ghost predicate Within(a: map<nat, nat>, b: map<nat, nat>) {
    forall n :: n in a ==> n in b && a[n] <= b[n]
  }

  ghost predicate Agree(a: AnvilState, st: State) {
    && a.current == st.current && a.lines == st.lines && a.files.Keys == st.files.Keys
    && forall f :: f in a.files ==> Within(a.files[f].lines, st.files[f].lines)
  }

  lemma StepsAgree(a: AnvilState, st: State, e: Entry)
    requires Agree(a, st)
    ensures Agree(AnvilStep(a, e), Step(st, e))
  {
    if e.End? && st.current != "" {
      var stored := Step(st, e).files[st.current].lines;
      assert Within(a.lines, stored);
    }
  }

  lemma {:induction false} RunsAgree(es: seq<Entry>)
    ensures Agree(AnvilRun(es), Run(Start, es))
  {
    if es != [] {
      RunsAgree(es[..|es| - 1]);
      StepsAgree(AnvilRun(es[..|es| - 1]), Run(Start, es[..|es| - 1]), es[|es| - 1]);
    }
  }

  /**
   Both parsers see the same files. Hits never exceed the full parser's, which combines several
   records of a file where this one keeps the last.
   */
  lemma AnvilWithinReport(content: string)
    ensures AnvilText(content).Keys == ParseText(content).Keys
    ensures forall f :: f in AnvilText(content) ==> Within(AnvilText(content)[f].lines, ParseText(content)[f].lines)
  {
    RunsAgree(EntriesOf(content));
  }

  method ReadAnvil(es: seq<Entry>) returns (files: Anvil)
    ensures files == AnvilRun(es).files
  {
    files := map[];
    var currentFile, currentLines: map<nat, nat>, currentFnHits: map<string, nat> := "", map[], map[];
    for i := 0 to |es|
      invariant AnvilState(files, currentFile, currentLines, currentFnHits) == AnvilRun(es[..i])
    {
      assert es[..i + 1][..i] == es[..i];
      match es[i]
      case Source(file) =>
        currentFile, currentLines, currentFnHits := file, map[], map[];
      case Data(n, h) =>
        if currentFile != "" {
          currentLines := Raise(currentLines, n, h);
        }
      case Plain(text) =>
        if currentFile != "" {
          currentFnHits := RaiseCalls(currentFnHits, ItemOf(text));
        }
      case End =>
        if currentFile != "" {
          files := files[currentFile := AnvilFile(currentLines, currentFnHits)];
          currentFile := "";
        }
      case _ =>
    }
    assert es[..|es|] == es;
  }

  method ParseAnvilData(content: string) returns (files: Anvil)
    requires AnvilWellFormed(content)
    ensures files == AnvilText(content)
  {
    files := ReadAnvil(EntriesOf(content));
  }

  // ----- the rebase loop -----

  ghost predicate LinesDone(r: map<nat, nat>, lines: map<nat, nat>, target: map<nat, nat>, rest: set<nat>) {
    && r.Keys == lines.Keys == target.Keys
    && forall n :: n in r ==> r[n] == if n in rest then lines[n] else target[n]
  }

  lemma LineDone(r: map<nat, nat>, lines: map<nat, nat>, target: map<nat, nat>, rest: set<nat>, n: nat)
    requires LinesDone(r, lines, target, rest) && n in rest && n in lines
    ensures LinesDone(r[n := target[n]], lines, target, rest - {n})
    ensures |CoveredOutside(target, rest - {n})| == |CoveredOutside(target, rest)| + if target[n] > 0 then 1 else 0
  {
    assert CoveredOutside(target, rest - {n}) ==
      if target[n] > 0 then CoveredOutside(target, rest) + {n} else CoveredOutside(target, rest);
  }

  ghost function CoveredOutside(target: map<nat, nat>, rest: set<nat>): set<nat> {
    set n | n in target && n !in rest && target[n] > 0
  }

  lemma AllLinesDone(r: map<nat, nat>, lines: map<nat, nat>, target: map<nat, nat>)
    requires LinesDone(r, lines, target, {})
    ensures r == target && CoveredOutside(target, {}) == Covered(r)
  {
  }

  method RebaseLines(lines: map<nat, nat>, anvil: map<nat, nat>) returns (r: map<nat, nat>, hit: nat)
    ensures r == RebasedLines(lines, anvil)
    ensures hit == |Covered(r)|
  {
    r, hit := lines, 0;
    ghost var target := RebasedLines(lines, anvil);
    var rest := lines.Keys;
    assert CoveredOutside(target, rest) == {};
    while rest != {}
      invariant rest <= lines.Keys && LinesDone(r, lines, target, rest) && hit == |CoveredOutside(target, rest)|
      decreases rest
    {
      var n :| n in rest;
      LineDone(r, lines, target, rest, n);
      var anvilLineHits := HitsAt(anvil, n);
      r := r[n := anvilLineHits];
      rest := rest - {n};
      if anvilLineHits > 0 {
        hit := hit + 1;
      }
    }
    AllLinesDone(r, lines, target);
  }

  lemma ApplyUpto(p: seq<string>, f: string -> string, i: nat)
    requires i < |p|
    ensures Apply(p[..i + 1], f) == Apply(p[..i], f) + [f(p[i])]
  {
  }

  lemma CountSnoc(items: seq<Item>, i: nat, p: Item -> bool)
    requires i < |items|
    ensures Count(items[..i + 1], p) == Count(items[..i], p) + if p(items[i]) then 1 else 0
  {
    assert items[..i + 1][..i] == items[..i];
  }

  /** Applies `f` to every line. */
  method MapLines(p: seq<string>, f: string -> string) returns (r: seq<string>)
    ensures r == Apply(p, f)
  {
    r := [];
    for i := 0 to |p|
      invariant |r| == i && forall k :: 0 <= k < i ==> r[k] == f(p[k])
    {
      r := r + [f(p[i])];
    }
  }

  method RebaseLine(t: string, calls: map<string, nat>) returns (r: string, reached: bool)
    ensures r == RebasedText(t, calls)
    ensures reached == Reached(calls)(ItemOf(t))
  {
    var item := ItemOf(t);
    if !item.Calls? {
      return t, false;
    }
    var anvilFnHits := FnHits(calls, item.name);
    return CallsText(anvilFnHits, item.name), anvilFnHits > 0;
  }

  method RebaseCalls(p: seq<string>, calls: map<string, nat>) returns (once: seq<string>, fnHitCount: nat)
    ensures once == Apply(p, RebaseText(calls))
    ensures fnHitCount == Count(Items(p), Reached(calls))
  {
    ghost var items, text := Items(p), RebaseText(calls);
    once, fnHitCount := [], 0;
    for i := 0 to |p|
      invariant once == Apply(p[..i], text)
      invariant fnHitCount == Count(items[..i], Reached(calls))
    {
      CountSnoc(items, i, Reached(calls));
      ApplyUpto(p, text, i);
      var line, reached := RebaseLine(p[i], calls);
      if reached {
        fnHitCount := fnHitCount + 1;
      }
      once := once + [line];
    }
    assert items[..|p|] == items && p[..|p|] == p;
  }

  method RebaseFunctions(p: seq<string>, calls: map<string, nat>) returns (r: seq<string>)
    ensures r == RebasedPreamble(p, calls)
  {
    var once, fnHitCount := RebaseCalls(p, calls);
    r := MapLines(once, CountText(fnHitCount));
  }

  method RebaseOne(r: FileRecord, a: AnvilFile) returns (rebased: FileRecord)
    ensures rebased == RebasedRecord(r, a)
  {
    var lines, _ := RebaseLines(r.lines, a.lines);
    var preamble := RebaseFunctions(r.preamble, a.functionHits);
    rebased := FileRecord(preamble, lines);
  }

  ghost predicate FilesDone(r: Files, files: Files, target: Files, rest: set<string>) {
    && r.Keys == files.Keys == target.Keys
    && forall f :: f in r ==> r[f] == if f in rest then files[f] else target[f]
  }

  lemma FileDone(r: Files, files: Files, target: Files, rest: set<string>, f: string)
    requires FilesDone(r, files, target, rest) && f in rest && f in files
    ensures FilesDone(r[f := target[f]], files, target, rest - {f})
    ensures target[f] == files[f] ==> FilesDone(r, files, target, rest - {f})
  {
  }

  lemma AllDone(r: Files, files: Files, target: Files)
    requires FilesDone(r, files, target, {})
    ensures r == target
  {
  }

  method RebaseAll(files: Files, anvil: Anvil) returns (r: Files)
    ensures r == RebasedFiles(files, anvil)
  {
    r := files;
    ghost var target := RebasedFiles(files, anvil);
    var rest := files.Keys;
    while rest != {}
      invariant rest <= files.Keys && FilesDone(r, files, target, rest)
      decreases rest
    {
      var f :| f in rest;
      FileDone(r, files, target, rest, f);
      var rebased := RebaseOne(r[f], DataFor(anvil, f));
      r := r[f := rebased];
      rest := rest - {f};
    }
    AllDone(r, files, target);
  }

  // ----- the merge loop -----

  /** Also counts the lines that Anvil alone covers. */
  method MergeHits(lines: map<nat, nat>, anvil: map<nat, nat>) returns (r: map<nat, nat>, enhanced: nat)
    ensures r == MergedLines(lines, anvil)
    ensures |Covered(r)| == |Covered(lines)| + enhanced
  {
    r, enhanced := lines, 0;
    ghost var target := MergedLines(lines, anvil);
    var rest := lines.Keys;
    while rest != {}
      invariant rest <= lines.Keys && LinesDone(r, lines, target, rest)
      invariant |Covered(r)| == |Covered(lines)| + enhanced
      decreases rest
    {
      var n :| n in rest;
      var foundryHits := r[n];
      if n in anvil && anvil[n] > foundryHits {
        CoverLine(r, n, anvil[n]);
        r := r[n := anvil[n]];
        if foundryHits == 0 {
          enhanced := enhanced + 1;
        }
      }
      rest := rest - {n};
    }
  }

  lemma CoverLine(r: map<nat, nat>, n: nat, h: nat)
    requires n in r && h > r[n]
    ensures |Covered(r[n := h])| == |Covered(r)| + if r[n] == 0 then 1 else 0
  {
    assert Covered(r[n := h]) == Covered(r) + {n};
    if r[n] > 0 {
      assert Covered(r[n := h]) == Covered(r);
    }
  }

  method MergeLine(t: string, calls: map<string, nat>) returns (r: string, enhanced: bool)
    ensures r == MergedText(t, calls)
    ensures enhanced == Enhanced(calls)(ItemOf(t))
  {
    var item := ItemOf(t);
    if !item.Calls? {
      return t, false;
    }
    var anvilFnHits := FnHits(calls, item.name);
    if anvilFnHits > 0 && item.hits == Some(0) {
      return CallsText(anvilFnHits, item.name), true;
    }
    if item.hits.Some? && anvilFnHits > item.hits.value {
      return CallsText(anvilFnHits, item.name), false;
    }
    return t, false;
  }

  method MergeCalls(p: seq<string>, calls: map<string, nat>) returns (r: seq<string>, enhanced: nat)
    ensures r == Apply(p, MergeText(calls))
    ensures enhanced == Count(Items(p), Enhanced(calls))
  {
    ghost var items, text := Items(p), MergeText(calls);
    r, enhanced := [], 0;
    for i := 0 to |p|
      invariant r == Apply(p[..i], text)
      invariant enhanced == Count(items[..i], Enhanced(calls))
    {
      CountSnoc(items, i, Enhanced(calls));
      ApplyUpto(p, text, i);
      var line, added := MergeLine(p[i], calls);
      if added {
        enhanced := enhanced + 1;
      }
      r := r + [line];
    }
    assert items[..|p|] == items && p[..|p|] == p;
  }

  /** Also counts the functions that Anvil alone reaches. */
  method MergeFunctions(p: seq<string>, calls: map<string, nat>) returns (r: seq<string>, enhanced: nat)
    ensures r == MergedPreamble(p, calls)
    ensures enhanced == Count(Items(p), Enhanced(calls))
  {
    r, enhanced := MergeCalls(p, calls);
    if enhanced > 0 {
      r := MapLines(r, BumpText(enhanced));
    }
  }

  lemma {:induction false} NothingEnhanced(items: seq<Item>)
    ensures Count(items, Enhanced(map[])) == 0
  {
    if items != [] {
      NothingEnhanced(items[..|items| - 1]);
    }
  }

  /** Without Anvil's hits nothing changes. */
  lemma MergedWithNothing(p: seq<string>, lines: map<nat, nat>)
    ensures MergedPreamble(p, map[]) == p
    ensures MergedLines(lines, map[]) == lines
  {
    NothingEnhanced(Items(p));
    assert Apply(p, MergeText(map[])) == p;
  }

  method MergeOne(r: FileRecord, a: AnvilFile) returns (merged: FileRecord)
    ensures merged == MergedRecord(r, a)
  {
    var lines, _ := MergeHits(r.lines, a.lines);
    if |a.functionHits| == 0 {
      MergedWithNothing(r.preamble, r.lines);
      return FileRecord(r.preamble, lines);
    }
    var preamble, _ := MergeFunctions(r.preamble, a.functionHits);
    merged := FileRecord(preamble, lines);
  }

  method MergeAll(files: Files, anvil: Anvil) returns (r: Files)
    ensures r == MergedFiles(files, anvil)
  {
    r := files;
    ghost var target := MergedFiles(files, anvil);
    var rest := files.Keys;
    while rest != {}
      invariant rest <= files.Keys && FilesDone(r, files, target, rest)
      decreases rest
    {
      var f :| f in rest;
      FileDone(r, files, target, rest, f);
      rest := rest - {f};
      if f !in anvil {
        MergedWithNothing(r[f].preamble, r[f].lines);
        continue;
      }
      var merged := MergeOne(r[f], anvil[f]);
      r := r[f := merged];
    }
    AllDone(r, files, target);
  }

  // ----- the laws of the two outputs -----

  lemma MergedHits(lines: map<nat, nat>, anvil: map<nat, nat>)
    ensures var m, r := MergedLines(lines, anvil), RebasedLines(lines, anvil);
      && m.Keys == r.Keys == lines.Keys
      && (forall n :: n in lines ==> m[n] == Max(lines[n], r[n]))
      && Covered(m) == Covered(lines) + Covered(r)
  {
  }

  lemma RebasedAt(files: Files, anvil: Anvil, f: string)
    requires f in files
    ensures RebasedFiles(files, anvil)[f].lines == RebasedLines(files[f].lines, DataFor(anvil, f).lines)
    ensures MergedFiles(files, anvil)[f].lines == MergedLines(files[f].lines, DataFor(anvil, f).lines)
    ensures forall n :: n in files[f].lines ==>
      RebasedFiles(files, anvil)[f].lines[n] == if f in anvil && n in anvil[f].lines then anvil[f].lines[n] else 0
  {
  }

  /** Both outputs have exactly Foundry's files and lines; rebased hits are Anvil's, merged hits the larger of the two. */
  lemma LineLaw(files: Files, anvil: Anvil, f: string)
    requires f in files
    ensures MergedFiles(files, anvil).Keys == RebasedFiles(files, anvil).Keys == files.Keys
    ensures var lines, m, r := files[f].lines, MergedFiles(files, anvil)[f].lines, RebasedFiles(files, anvil)[f].lines;
      && m.Keys == r.Keys == lines.Keys
      && (forall n :: n in lines ==> r[n] == if f in anvil && n in anvil[f].lines then anvil[f].lines[n] else 0)
      && (forall n :: n in lines ==> m[n] == Max(lines[n], r[n]))
      && Covered(m) == Covered(lines) + Covered(r)
  {
    MergedHits(files[f].lines, DataFor(anvil, f).lines);
    RebasedAt(files, anvil, f);
  }

  /** Line by line of a record: rebased function hits are Anvil's, merged ones the larger of the two; other lines stay. */
  lemma FunctionLaw(files: Files, anvil: Anvil, f: string, i: nat)
    requires f in files && i < |files[f].preamble|
    ensures |MergedFiles(files, anvil)[f].preamble| == |RebasedFiles(files, anvil)[f].preamble| == |files[f].preamble|
    ensures var r, m := ItemOf(RebasedFiles(files, anvil)[f].preamble[i]), ItemOf(MergedFiles(files, anvil)[f].preamble[i]);
      match ItemOf(files[f].preamble[i])
      case Calls(hits, name) =>
        && r == Calls(Some(if f in anvil && name in anvil[f].functionHits then anvil[f].functionHits[name] else 0), name)
        && m == Calls(if hits.Some? then Some(Max(hits.value, r.hits.value)) else None, name)
      case FunctionsHit(_) => r.FunctionsHit? && m.FunctionsHit?
      case Verbatim(text) => r == m == Verbatim(text)
  {
    var p, calls := files[f].preamble, DataFor(anvil, f).functionHits;
    RebasedPreambleItems(p, calls);
    MergedPreambleItems(p, calls);
    ItemLaw(Items(p), calls, i);
    SameItem(RebasedPreamble(p, calls), i);
    SameItem(MergedPreamble(p, calls), i);
    SameItem(p, i);
  }

  lemma SameItem(p: seq<string>, i: nat)
    requires i < |p|
    ensures Items(p)[i] == ItemOf(p[i])
  {
  }

  /** The rebased counts of functions hit are right; the merged ones exactly where Foundry's are. */
  lemma CountLaw(files: Files, anvil: Anvil, f: string)
    requires f in files
    ensures Consistent(Items(RebasedFiles(files, anvil)[f].preamble))
    ensures Consistent(Items(MergedFiles(files, anvil)[f].preamble)) <==> Consistent(Items(files[f].preamble))
  {
    var p, calls := files[f].preamble, DataFor(anvil, f).functionHits;
    RebasedPreambleItems(p, calls);
    MergedPreambleItems(p, calls);
    RebasedConsistent(Items(p), calls);
    MergedConsistent(Items(p), calls);
  }

  // ----- the reports as they are written -----

  /** `r` shows Anvil's hits on Foundry's lines of file `f`. */
  ghost predicate ShowsAnvil(lines: map<nat, nat>, anvil: Anvil, f: string, r: map<nat, nat>) {
    && r.Keys == lines.Keys
    && forall n :: n in lines ==> r[n] == if f in anvil && n in anvil[f].lines then anvil[f].lines[n] else 0
  }

  /** `m` shows the larger of Foundry's and Anvil's hits. */
  ghost predicate ShowsLarger(lines: map<nat, nat>, anvil: Anvil, f: string, m: map<nat, nat>) {
    && m.Keys == lines.Keys
    && forall n :: n in lines ==>
         m[n] == if f in anvil && n in anvil[f].lines && anvil[f].lines[n] > lines[n] then anvil[f].lines[n] else lines[n]
  }

  /** Line `r` of the rebased report, for line `t` of Foundry's record of file `f`. */
  ghost predicate ShowsAnvilCalls(t: string, anvil: Anvil, f: string, r: string) {
    match ItemOf(t)
    case Calls(_, name) =>
      ItemOf(r) == Calls(Some(if f in anvil && name in anvil[f].functionHits then anvil[f].functionHits[name] else 0), name)
    case FunctionsHit(_) => ItemOf(r).FunctionsHit?
    case Verbatim(_) => r == t
  }

  /** Line `m` of the merged report, for line `t` of Foundry's record of file `f`. */
  ghost predicate ShowsLargerCalls(t: string, anvil: Anvil, f: string, m: string) {
    match ItemOf(t)
    case Calls(None, _) => ItemOf(m) == ItemOf(t)
    case Calls(Some(hits), name) =>
      if f in anvil && name in anvil[f].functionHits && anvil[f].functionHits[name] > hits
      then ItemOf(m) == Calls(Some(anvil[f].functionHits[name]), name) else ItemOf(m) == ItemOf(t)
    case FunctionsHit(_) => ItemOf(m).FunctionsHit?
    case Verbatim(_) => m == t
  }

  /** The rebased record of file `f`, as read back from what is written. */
  ghost predicate IsRebased(foundry: FileRecord, anvil: Anvil, f: string, r: FileRecord) {
    var p := WithoutTestNames(foundry.preamble);
    && ShowsAnvil(foundry.lines, anvil, f, r.lines)
    && |r.preamble| == |p| && (forall i :: 0 <= i < |p| ==> ShowsAnvilCalls(p[i], anvil, f, r.preamble[i]))
    && Consistent(Items(r.preamble))
  }

  /** The merged record of file `f`, as read back from what is written. */
  ghost predicate IsMerged(foundry: FileRecord, anvil: Anvil, f: string, m: FileRecord) {
    var p := WithoutTestNames(foundry.preamble);
    && ShowsLarger(foundry.lines, anvil, f, m.lines)
    && |m.preamble| == |p| && (forall i :: 0 <= i < |p| ==> ShowsLargerCalls(p[i], anvil, f, m.preamble[i]))
    && (Consistent(Items(m.preamble)) <==> Consistent(Items(p)))
  }

  lemma {:induction false} MappedWithoutTestNames(p: seq<string>, g: string -> string)
    requires forall t :: IsTestName(g(t)) <==> IsTestName(t)
    ensures WithoutTestNames(Apply(p, g)) == Apply(WithoutTestNames(p), g)
  {
    if p != [] {
      var init, t := p[..|p| - 1], p[|p| - 1];
      ApplySnoc(p, g);
      MappedWithoutTestNames(init, g);
    }
  }

  /** A function record or a count is no test name, and neither becomes one. */
  lemma TestNamesStay(t: string, calls: map<string, nat>, k: nat)
    ensures IsTestName(RebasedText(t, calls)) <==> IsTestName(t)
    ensures IsTestName(MergedText(t, calls)) <==> IsTestName(t)
    ensures IsTestName(CountedText(t, k)) <==> IsTestName(t)
    ensures IsTestName(BumpedText(t, k)) <==> IsTestName(t)
  {
    assert "TN:"[0] == 'T' && "FNDA:"[0] == 'F' && "FNH:"[0] == 'F';
  }

  lemma CountItemsSnoc(init: seq<string>, t: string, p: seq<string>, q: Item -> bool)
    requires p == init + [t]
    ensures Count(Items(p), q) == Count(Items(init), q) + if q(ItemOf(t)) then 1 else 0
  {
    assert Items(p)[..|init|] == Items(init);
  }

  lemma TestNameIsVerbatim(t: string)
    requires IsTestName(t)
    ensures ItemOf(t) == Verbatim(t)
  {
    assert t[..3] == "TN:" && t[0] == 'T' && "FNDA:"[0] == 'F' && "FNH:"[0] == 'F';
  }

  lemma {:induction false} CountWithoutTestNames(p: seq<string>, q: Item -> bool, clean: seq<string>)
    requires clean == WithoutTestNames(p) && forall i :: q(i) ==> !i.Verbatim?
    ensures Count(Items(clean), q) == Count(Items(p), q)
  {
    if p != [] {
      var init, t := p[..|p| - 1], p[|p| - 1];
      var rest := WithoutTestNames(init);
      CountWithoutTestNames(init, q, rest);
      CountItemsSnoc(init, t, p, q);
      if IsTestName(t) {
        TestNameIsVerbatim(t);
        assert clean == rest;
      } else {
        CountItemsSnoc(rest, t, clean, q);
      }
    }
  }

  /** Leaving out test names before or after rebasing and merging makes no difference. */
  lemma OutputsWithoutTestNames(p: seq<string>, calls: map<string, nat>)
    ensures WithoutTestNames(RebasedPreamble(p, calls)) == RebasedPreamble(WithoutTestNames(p), calls)
    ensures WithoutTestNames(MergedPreamble(p, calls)) == MergedPreamble(WithoutTestNames(p), calls)
  {
    var count, k := Count(Items(p), Reached(calls)), Count(Items(p), Enhanced(calls));
    CountWithoutTestNames(p, Reached(calls), WithoutTestNames(p));
    CountWithoutTestNames(p, Enhanced(calls), WithoutTestNames(p));
    forall t
      ensures IsTestName(RebaseText(calls)(t)) <==> IsTestName(t)
      ensures IsTestName(MergeText(calls)(t)) <==> IsTestName(t)
      ensures IsTestName(CountText(count)(t)) <==> IsTestName(t)
      ensures IsTestName(BumpText(k)(t)) <==> IsTestName(t)
    {
      TestNamesStay(t, calls, count);
      TestNamesStay(t, calls, k);
    }
    MappedWithoutTestNames(p, RebaseText(calls));
    MappedWithoutTestNames(Apply(p, RebaseText(calls)), CountText(count));
    MappedWithoutTestNames(p, MergeText(calls));
    MappedWithoutTestNames(Apply(p, MergeText(calls)), BumpText(k));
  }

  lemma RebasedLineShows(files: Files, anvil: Anvil, f: string, i: nat)
    requires f in files && i < |files[f].preamble|
    ensures |RebasedFiles(files, anvil)[f].preamble| == |files[f].preamble|
    ensures ShowsAnvilCalls(files[f].preamble[i], anvil, f, RebasedFiles(files, anvil)[f].preamble[i])
  {
    FunctionLaw(files, anvil, f, i);
    VerbatimItem(files[f].preamble[i], RebasedFiles(files, anvil)[f].preamble[i]);
  }

  lemma MergedLineShows(files: Files, anvil: Anvil, f: string, i: nat)
    requires f in files && i < |files[f].preamble|
    ensures |MergedFiles(files, anvil)[f].preamble| == |files[f].preamble|
    ensures ShowsLargerCalls(files[f].preamble[i], anvil, f, MergedFiles(files, anvil)[f].preamble[i])
  {
    FunctionLaw(files, anvil, f, i);
    VerbatimItem(files[f].preamble[i], MergedFiles(files, anvil)[f].preamble[i]);
  }

  lemma VerbatimItem(t: string, u: string)
    ensures ItemOf(t).Verbatim? && ItemOf(u) == ItemOf(t) ==> u == t
  {
  }

  /** What is written as the rebased record, once read back. */
  lemma WrittenRebased(files: Files, anvil: Anvil, f: string)
    requires f in files
    ensures IsRebased(files[f], anvil, f, Clean(RebasedFiles(files, anvil)[f]))
  {
    var clean := CleanFiles(files);
    var r := Clean(RebasedFiles(files, anvil)[f]);
    OutputsWithoutTestNames(files[f].preamble, DataFor(anvil, f).functionHits);
    assert r == RebasedFiles(clean, anvil)[f];
    LineLaw(clean, anvil, f);
    CountLaw(clean, anvil, f);
    forall i | 0 <= i < |clean[f].preamble|
      ensures |r.preamble| == |clean[f].preamble| && ShowsAnvilCalls(clean[f].preamble[i], anvil, f, r.preamble[i])
    {
      RebasedLineShows(clean, anvil, f, i);
    }
  }

  lemma MergedIsClean(files: Files, anvil: Anvil, f: string, clean: Files, m: FileRecord)
    requires f in files && clean == CleanFiles(files) && m == Clean(MergedFiles(files, anvil)[f])
    ensures m == MergedFiles(clean, anvil)[f]
  {
    OutputsWithoutTestNames(files[f].preamble, DataFor(anvil, f).functionHits);
  }

  lemma LargerHits(clean: Files, anvil: Anvil, f: string, m: FileRecord)
    requires f in clean && m == MergedFiles(clean, anvil)[f]
    ensures ShowsLarger(clean[f].lines, anvil, f, m.lines)
  {
    LineLaw(clean, anvil, f);
  }

  /** What is written as the merged record, once read back. */
  lemma WrittenMerged(files: Files, anvil: Anvil, f: string)
    requires f in files
    ensures IsMerged(files[f], anvil, f, Clean(MergedFiles(files, anvil)[f]))
  {
    var clean := CleanFiles(files);
    var m := Clean(MergedFiles(files, anvil)[f]);
    MergedIsClean(files, anvil, f, clean, m);
    LargerHits(clean, anvil, f, m);
    CountLaw(clean, anvil, f);
    forall i | 0 <= i < |clean[f].preamble|
      ensures |m.preamble| == |clean[f].preamble| && ShowsLargerCalls(clean[f].preamble[i], anvil, f, m.preamble[i])
    {
      MergedLineShows(clean, anvil, f, i);
    }
  }

  /** Both written reports, read back, file by file. */
  ghost predicate IsRebasedReport(foundry: Files, anvil: Anvil, r: Files) {
    r.Keys == foundry.Keys && forall f :: f in foundry ==> IsRebased(foundry[f], anvil, f, r[f])
  }

  ghost predicate IsMergedReport(foundry: Files, anvil: Anvil, m: Files) {
    m.Keys == foundry.Keys && forall f :: f in foundry ==> IsMerged(foundry[f], anvil, f, m[f])
  }

  lemma WrittenRebasedReport(files: Files, anvil: Anvil, r: Files)
    requires r == CleanFiles(RebasedFiles(files, anvil))
    ensures IsRebasedReport(files, anvil, r)
  {
    forall f | f in files ensures IsRebased(files[f], anvil, f, r[f]) {
      WrittenRebased(files, anvil, f);
    }
  }

  lemma WrittenMergedReport(files: Files, anvil: Anvil, m: Files)
    requires m == CleanFiles(MergedFiles(files, anvil))
    ensures IsMergedReport(files, anvil, m)
  {
    forall f | f in files ensures IsMerged(files[f], anvil, f, m[f]) {
      WrittenMerged(files, anvil, f);
    }
  }

  /** The script: the merged report, and the rebased one when Anvil's report exists. */
  method MergeCoverage(foundry: string, anvil: Option<string>, leq: (string, string) -> bool)
    returns (merged: string, rebased: Option<string>)
    requires WellFormed(foundry) && Total(leq) && (anvil.Some? ==> AnvilWellFormed(anvil.value))
    ensures WellFormed(merged)
    ensures IsMergedReport(ParseText(foundry), if anvil.Some? then AnvilText(anvil.value) else map[], ParseText(merged))
    ensures rebased.Some? <==> anvil.Some?
    ensures anvil.Some? ==>
      && WellFormed(rebased.value)
      && IsRebasedReport(ParseText(foundry), AnvilText(anvil.value), ParseText(rebased.value))
  {
    var files := ParseLcov(foundry);
    ParsedProper(foundry);
    var data: Anvil := map[];
    rebased := None;
    if anvil.Some? {
      data := ParseAnvilData(anvil.value);
      OutputsProper(files, data);
      var base := RebaseAll(files, data);
      var text := ToLcovString(base, leq);
      PrintParses(base, leq);
      rebased := Some(text);
    } else {
      MergedWithoutReport(files);
    }
    WrittenRebasedReport(files, data, CleanFiles(RebasedFiles(files, data)));
    WrittenMergedReport(files, data, CleanFiles(MergedFiles(files, data)));
    if anvil.Some? {
      files := MergeAll(files, data);
    }
    PrintParses(files, leq);
    merged := ToLcovString(files, leq);
  }

  lemma MergedWithoutReport(files: Files)
    ensures MergedFiles(files, map[]) == files
  {
    forall f | f in files ensures MergedFiles(files, map[])[f] == files[f] {
      MergedWithNothing(files[f].preamble, files[f].lines);
    }
  }
}
