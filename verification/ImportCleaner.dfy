/** The tool that rewrites a file's imports, as it works: two passes over the lines. */
module ImportCleaner {
  import opened Ordering
  import opened ImportSyntax
  import opened ImportUnifier

  datatype Collected = Collected(symbols: seq<string>, firstIndex: nat)

  type Imports = map<string, Collected>

  /** Lines with the text of an import are imports. */
  ghost predicate SameTextNamed(line: Line, p: seq<Line>) {
    forall k :: 0 <= k < |p| && p[k].text == line.text ==> p[k].Named?
  }

  /** Looks the symbol up in every line that differs from the import and is no import. */
  method SymbolUsed(sym: string, line: Line, p: seq<Line>) returns (used: bool)
    requires SameTextNamed(line, p)
    ensures used <==> Used(sym, p)
  {
    used := Contains(sym, " as ");
    for i := 0 to |p|
      invariant used <==> Contains(sym, " as ") || exists k :: 0 <= k < i && p[k].Other? && Contains(p[k].text, sym)
    {
      if line.text == p[i].text {
        continue;
      }
      if Contains(p[i].text, sym) && p[i].Other? {
        used := true;
        assert p[i].Other? && Contains(p[i].text, sym);
        break;
      }
    }
  }

  ghost predicate HasDuplicate(l: Line) {
    l.Named? && !Distinct(l.symbols)
  }

  ghost predicate Unsorted(l: Line) {
    l.Named? && l.symbols != Sort(l.symbols, LexLeq)
  }

  ghost predicate HasUnused(lines: seq<Line>, l: Line) {
    l.Named? && exists s :: s in l.symbols && !Used(s, lines)
  }

  /** `len(raw) != len(set(raw))` */
  method Repeats(symbols: seq<string>) returns (r: bool)
    ensures r <==> !Distinct(symbols)
  {
    var distinct := Elements(symbols);
    r := |symbols| != |distinct|;
    SizeOfElements(symbols);
  }

  /** The symbols of one import are added to those of its path. */
  method AddSymbols(acc0: seq<string>, raw: seq<string>, line: Line, p: seq<Line>)
    returns (acc: seq<string>, removed: seq<string>)
    requires SameTextNamed(line, p) && forall s :: s in acc0 ==> Used(s, p)
    ensures acc == AddUsed(acc0, raw, p)
    ensures forall s :: s in acc ==> Used(s, p)
    ensures forall s :: s in removed <==> s in raw && !Used(s, p)
  {
    acc, removed := acc0, [];
    for i := 0 to |raw|
      invariant acc == AddUsed(acc0, raw[..i], p)
      invariant forall s :: s in acc ==> Used(s, p)
      invariant forall s :: s in removed <==> s in raw[..i] && !Used(s, p)
    {
      var sym := raw[i];
      assert raw[..i + 1] == raw[..i] + [sym] && raw[..i + 1][..i] == raw[..i];
      if sym !in acc {
        var used := SymbolUsed(sym, line, p);
        if !used {
          removed := removed + [sym];
        } else {
          acc := acc + [sym];
        }
      }
    }
    assert raw[..|raw|] == raw;
  }

  /** What the first pass knows after `n` lines. */
  ghost predicate Gathered(imports: Imports, p: seq<Line>, n: nat)
    requires n <= |p|
  {
    && (forall path :: path in imports <==> ImportedUpto(p, path, n))
    && forall path :: path in imports ==>
      && imports[path].symbols == SymbolsUpto(p, path, n)
      && imports[path].firstIndex < n && IsFirst(p, imports[path].firstIndex) && p[imports[path].firstIndex].path == path
  }

  lemma GatheredOther(imports: Imports, p: seq<Line>, n: nat)
    requires n < |p| && Gathered(imports, p, n) && p[n].Other?
    ensures Gathered(imports, p, n + 1)
  {
    forall path ensures ImportedUpto(p, path, n + 1) <==> ImportedUpto(p, path, n) {
    }
  }

  lemma GatheredImport(imports: Imports, p: seq<Line>, n: nat, acc: seq<string>)
    requires n < |p| && Gathered(imports, p, n) && p[n].Named?
    requires acc == AddUsed(if p[n].path in imports then imports[p[n].path].symbols else [], p[n].symbols, p)
    ensures var first := if p[n].path in imports then imports[p[n].path].firstIndex else n;
      Gathered(imports[p[n].path := Collected(acc, first)], p, n + 1)
  {
    forall path ensures ImportedUpto(p, path, n + 1) <==> ImportedUpto(p, path, n) || path == p[n].path {
      if path == p[n].path {
        assert ImportsFrom(p[n], path);
      }
    }
    if p[n].path !in imports {
      NeverImported(p, p[n].path, n);
      assert IsFirst(p, n);
    }
  }

  lemma {:induction false} NeverImported(p: seq<Line>, path: string, n: nat)
    requires n <= |p| && !ImportedUpto(p, path, n)
    ensures SymbolsUpto(p, path, n) == []
    ensures forall k :: 0 <= k < n ==> !ImportsFrom(p[k], path)
  {
    if n > 0 {
      assert !ImportedUpto(p, path, n - 1);
      NeverImported(p, path, n - 1);
    }
  }

  lemma {:induction false} SymbolsAreUsed(p: seq<Line>, path: string, n: nat)
    requires n <= |p|
    ensures forall s :: s in SymbolsUpto(p, path, n) ==> Used(s, p)
  {
    SymbolsMembers(p, path, n);
  }

  /** Some import among the first `n` lines repeats a symbol, is unsorted, or has an unused symbol. */
  ghost predicate AnyDuplicate(p: seq<Line>, n: nat)
    requires n <= |p|
  {
    n > 0 && (AnyDuplicate(p, n - 1) || HasDuplicate(p[n - 1]))
  }

  ghost predicate AnyUnsorted(p: seq<Line>, n: nat)
    requires n <= |p|
  {
    n > 0 && (AnyUnsorted(p, n - 1) || Unsorted(p[n - 1]))
  }

  ghost predicate AnyUnused(p: seq<Line>, n: nat)
    requires n <= |p|
  {
    n > 0 && (AnyUnused(p, n - 1) || HasUnused(p, p[n - 1]))
  }

  /** The first pass at an import. */
  method VisitImport(imports0: Imports, p: seq<Line>, idx: nat)
    returns (imports: Imports, repeats: bool, unsorted: bool, unused: seq<string>)
    requires idx < |p| && Gathered(imports0, p, idx) && p[idx].Named? && SameTextNamed(p[idx], p)
    ensures Gathered(imports, p, idx + 1)
    ensures repeats <==> HasDuplicate(p[idx])
    ensures unsorted <==> Unsorted(p[idx])
    ensures unused != [] <==> HasUnused(p, p[idx])
    ensures forall s :: s in unused ==> !Used(s, p)
  {
    var m := p[idx];
    repeats := Repeats(m.symbols);
    unsorted := m.symbols != Sort(m.symbols, LexLeq);
    var known := m.path in imports0;
    var before := if known then imports0[m.path].symbols else [];
    SymbolsAreUsed(p, m.path, idx);
    var acc;
    acc, unused := AddSymbols(before, m.symbols, m, p);
    GatheredImport(imports0, p, idx, acc);
    UnusedFound(p, m, unused);
    imports := imports0[m.path := Collected(acc, if known then imports0[m.path].firstIndex else idx)];
  }

  /** Collects the used symbols of every path and notes what calls for a rewrite. */
  method FirstPass(p: seq<Line>)
    returns (imports: Imports, duplicates: bool, unsorted: bool, removed: seq<string>)
    requires forall k :: 0 <= k < |p| && p[k].Named? ==> SameTextNamed(p[k], p)
    ensures Gathered(imports, p, |p|)
    ensures duplicates == AnyDuplicate(p, |p|)
    ensures unsorted == AnyUnsorted(p, |p|)
    ensures removed != [] <==> AnyUnused(p, |p|)
    ensures forall s :: s in removed ==> !Used(s, p)
  {
    imports, duplicates, unsorted, removed := map[], false, false, [];
    for idx := 0 to |p|
      invariant Gathered(imports, p, idx)
      invariant duplicates == AnyDuplicate(p, idx) && unsorted == AnyUnsorted(p, idx)
      invariant removed != [] <==> AnyUnused(p, idx)
      invariant forall s :: s in removed ==> !Used(s, p)
    {
      if p[idx].Other? {
        GatheredOther(imports, p, idx);
        continue;
      }
      var repeats, disorder, unused;
      imports, repeats, disorder, unused := VisitImport(imports, p, idx);
      if repeats { duplicates := true; }
      if disorder { unsorted := true; }
      removed := removed + unused;
    }
  }

  lemma UnusedFound(p: seq<Line>, l: Line, unused: seq<string>)
    requires l.Named? && forall s :: s in unused <==> s in l.symbols && !Used(s, p)
    ensures unused != [] <==> HasUnused(p, l)
  {
    if unused != [] {
      assert unused[0] in unused;
    }
  }

  // ----- paths imported more than once -----

  function Count(p: seq<Line>, path: string, n: nat): nat
    requires n <= |p|
  {
    if n == 0 then 0 else Count(p, path, n - 1) + if ImportsFrom(p[n - 1], path) then 1 else 0
  }

  ghost predicate Repeated(p: seq<Line>, n: nat)
    requires n <= |p|
  {
    exists j, k :: 0 <= j < k < n && p[k].Named? && ImportsFrom(p[j], p[k].path)
  }

  lemma {:induction false} CountPositive(p: seq<Line>, path: string, n: nat)
    requires n <= |p|
    ensures Count(p, path, n) > 0 <==> ImportedUpto(p, path, n)
  {
    if n > 0 {
      CountPositive(p, path, n - 1);
      assert ImportedUpto(p, path, n) <==> ImportedUpto(p, path, n - 1) || ImportsFrom(p[n - 1], path);
    }
  }

  lemma {:induction false} CountedTwice(p: seq<Line>, path: string, n: nat)
    requires n <= |p| && Count(p, path, n) > 1
    ensures Repeated(p, n)
  {
    if Count(p, path, n - 1) > 1 {
      CountedTwice(p, path, n - 1);
      var j, k :| 0 <= j < k < n - 1 && p[k].Named? && ImportsFrom(p[j], p[k].path);
      assert p[k].Named? && ImportsFrom(p[j], p[k].path);
    } else {
      CountPositive(p, path, n - 1);
      var j :| 0 <= j < n - 1 && ImportsFrom(p[j], path);
      assert p[n - 1].Named? && ImportsFrom(p[j], p[n - 1].path);
    }
  }

  lemma {:induction false} TwiceCounted(p: seq<Line>, j: nat, k: nat, n: nat)
    requires j < k < n <= |p| && p[k].Named? && ImportsFrom(p[j], p[k].path)
    ensures Count(p, p[k].path, n) > 1
  {
    if k < n - 1 {
      TwiceCounted(p, j, k, n - 1);
    } else {
      CountPositive(p, p[k].path, n - 1);
    }
  }

  /** Counts the imports of every path and reports whether one has more than one. */
  method HasRepeatedPath(p: seq<Line>, paths: set<string>) returns (r: bool)
    requires forall path :: path in paths <==> ImportedUpto(p, path, |p|)
    ensures r <==> Repeated(p, |p|)
  {
    var occurrences: map<string, nat> := map path | path in paths :: 0;
    for idx := 0 to |p|
      invariant occurrences.Keys == paths
      invariant forall path :: path in paths ==> occurrences[path] == Count(p, path, idx)
    {
      var m := p[idx];
      if m.Named? && m.path in occurrences {
        occurrences := occurrences[m.path := occurrences[m.path] + 1];
      }
    }
    r := exists path :: path in occurrences && occurrences[path] > 1;
    if r {
      var path :| path in occurrences && occurrences[path] > 1;
      CountedTwice(p, path, |p|);
    }
    if Repeated(p, |p|) {
      var j, k :| 0 <= j < k < |p| && p[k].Named? && ImportsFrom(p[j], p[k].path);
      TwiceCounted(p, j, k, |p|);
      assert ImportsFrom(p[k], p[k].path);
      assert p[k].path in occurrences && occurrences[p[k].path] > 1;
    }
  }

  // ----- the decision to rewrite -----

  lemma {:induction false} AnyMeans(p: seq<Line>, n: nat)
    requires n <= |p|
    ensures !AnyDuplicate(p, n) && !AnyUnsorted(p, n) && !AnyUnused(p, n) <==> forall k :: 0 <= k < n ==> Tidy(p, k)
  {
    if n > 0 {
      AnyMeans(p, n - 1);
      assert Tidy(p, n - 1) <==> !HasDuplicate(p[n - 1]) && !Unsorted(p[n - 1]) && !HasUnused(p, p[n - 1]);
    }
  }

  lemma NormalMeans(p: seq<Line>)
    ensures Normal(p) <==> !Repeated(p, |p|) && !AnyDuplicate(p, |p|) && !AnyUnsorted(p, |p|) && !AnyUnused(p, |p|)
  {
    AnyMeans(p, |p|);
  }

  // ----- the second pass -----

  function Without(symbols: seq<string>, removed: seq<string>): seq<string> {
    if symbols == [] then []
    else
      var s := symbols[|symbols| - 1];
      Without(symbols[..|symbols| - 1], removed) + if s in removed then [] else [s]
  }

  lemma {:induction false} WithoutNothing(symbols: seq<string>, removed: seq<string>)
    requires forall s :: s in symbols ==> s !in removed
    ensures Without(symbols, removed) == symbols
  {
    if symbols != [] {
      var init, s := symbols[..|symbols| - 1], symbols[|symbols| - 1];
      assert symbols == init + [s];
      WithoutNothing(init, removed);
    }
  }

  /**
   The unified text of a path. Unused symbols never reached the collected list, so filtering them
   out again changes nothing, and exempting dependency files from that filter has no effect.
   */
  method UnifiedText(imports: Imports, path: string, removed: seq<string>, dependencyFile: bool, ghost p: seq<Line>)
    returns (text: string)
    requires Gathered(imports, p, |p|) && path in imports && forall s :: s in removed ==> !Used(s, p)
    ensures text == Unified(p, path).text
  {
    var sorted := Sort(imports[path].symbols, LexLeq);
    UnifiedSymbols(p, path);
    WithoutNothing(sorted, removed);
    var filtered := if dependencyFile then sorted else Without(sorted, removed);
    text := if |filtered| == 0 then "\n" else PrintImport(filtered, path);
  }

  /** The unified text of every path. */
  method UnifiedTexts(imports: Imports, removed: seq<string>, dependencyFile: bool, ghost p: seq<Line>)
    returns (texts: map<string, string>)
    requires Gathered(imports, p, |p|) && forall s :: s in removed ==> !Used(s, p)
    ensures texts.Keys == imports.Keys
    ensures forall path :: path in texts ==> texts[path] == Unified(p, path).text
  {
    texts := map[];
    var rest := imports.Keys;
    while rest != {}
      invariant rest <= imports.Keys && texts.Keys == imports.Keys - rest
      invariant forall path :: path in texts ==> texts[path] == Unified(p, path).text
      decreases rest
    {
      var path :| path in rest;
      var text := UnifiedText(imports, path, removed, dependencyFile, p);
      texts := texts[path := text];
      rest := rest - {path};
    }
  }

  /** The recorded index of every imported path is that of its first import. */
  ghost predicate Indexed(imports: Imports, p: seq<Line>) {
    forall k :: 0 <= k < |p| && p[k].Named? ==>
      p[k].path in imports && (imports[p[k].path].firstIndex == k <==> IsFirst(p, k))
  }

  lemma GatheredIndexed(imports: Imports, p: seq<Line>)
    requires Gathered(imports, p, |p|)
    ensures Indexed(imports, p)
  {
    forall k | 0 <= k < |p| && p[k].Named?
      ensures p[k].path in imports && (imports[p[k].path].firstIndex == k <==> IsFirst(p, k))
    {
      assert ImportsFrom(p[k], p[k].path);
      assert ImportsFrom(p[imports[p[k].path].firstIndex], p[k].path);
    }
  }

  /** The second pass at one line: what is written for it. */
  method VisitLine(p: seq<Line>, idx: nat, imports: Imports, texts: map<string, string>, printed0: set<string>,
                   ghost unified: string -> Line)
    returns (added: seq<string>, printed: set<string>)
    requires idx < |p| && Indexed(imports, p) && texts.Keys == imports.Keys
    requires forall path :: path in texts ==> texts[path] == unified(path).text
    requires forall path :: path in printed0 ==> ImportedUpto(p, path, idx)
    ensures added == PieceTexts(p, unified, idx)
    ensures forall path :: path in printed ==> ImportedUpto(p, path, idx + 1)
  {
    var m := p[idx];
    added, printed := [], printed0;
    if m.Other? {
      added := [m.text];
    } else if m.path !in printed && idx == imports[m.path].firstIndex {
      added := [texts[m.path]];
      printed := printed + {m.path};
      assert ImportsFrom(p[idx], m.path);
    } else {
      assert !IsFirst(p, idx);
    }
  }

  /** Every import becomes its path's unified text at the first import of the path, and nothing after it. */
  method SecondPass(p: seq<Line>, imports: Imports, texts: map<string, string>, ghost unified: string -> Line)
    returns (output: seq<string>)
    requires Indexed(imports, p) && texts.Keys == imports.Keys
    requires forall path :: path in texts ==> texts[path] == unified(path).text
    ensures output == Texts(Rewritten(p, unified, |p|))
  {
    var printed: set<string> := {};
    output := [];
    for idx := 0 to |p|
      invariant output == Texts(Rewritten(p, unified, idx))
      invariant forall path :: path in printed ==> ImportedUpto(p, path, idx)
    {
      RewrittenSnoc(p, unified, idx);
      var added;
      added, printed := VisitLine(p, idx, imports, texts, printed, unified);
      output := output + added;
    }
  }

  ghost function PieceTexts(p: seq<Line>, unified: string -> Line, n: nat): seq<string>
    requires n < |p|
  {
    if p[n].Other? then [p[n].text] else if IsFirst(p, n) then [unified(p[n].path).text] else []
  }

  lemma RewrittenSnoc(p: seq<Line>, unified: string -> Line, n: nat)
    requires n < |p|
    ensures Texts(Rewritten(p, unified, n + 1)) == Texts(Rewritten(p, unified, n)) + PieceTexts(p, unified, n)
    ensures p[n].Named? && ImportedUpto(p, p[n].path, n) ==> !IsFirst(p, n)
  {
    var before := Rewritten(p, unified, n);
    if p[n].Other? {
      TextsSnoc(before, p[n]);
    } else if IsFirst(p, n) {
      TextsSnoc(before, unified(p[n].path));
    } else {
      assert before + [] == before;
    }
  }

  lemma TextsSnoc(lines: seq<Line>, l: Line)
    ensures Texts(lines + [l]) == Texts(lines) + [l.text]
  {
    assert (lines + [l])[..|lines|] == lines;
  }

  /** The tool; the result does not depend on whether the file is a dependency file. */
  method ProcessFile(lines: seq<string>, dependencyFile: bool) returns (output: seq<string>)
    ensures output == ProcessText(lines)
  {
    var p := ParseLines(lines);
    var imports, duplicates, unsorted, removed := FirstPass(p);
    var repeated := HasRepeatedPath(p, imports.Keys);
    NormalMeans(p);
    if !repeated && !duplicates && !unsorted && |removed| == 0 {
      TextsOfParsed(lines);
      return lines;
    }
    ghost var unified := (path: string) => Unified(p, path);
    var texts := UnifiedTexts(imports, removed, dependencyFile, p);
    GatheredIndexed(imports, p);
    output := SecondPass(p, imports, texts, unified);
  }
}
