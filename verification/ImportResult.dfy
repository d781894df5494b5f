/** What the import unifier leaves, whatever it was given: said without the tool's own tests and passes. */
module ImportResult {
  import opened Ordering
  import opened ImportUnifier

  ghost predicate Ascending(symbols: seq<string>) {
    forall i, j :: 0 <= i < j < |symbols| ==> LexLeq(symbols[i], symbols[j]) && symbols[i] != symbols[j]
  }

  /**
   In `out` no path is imported twice, every list of symbols ascends, and exactly those symbols are
   imported from a path that `lines` import from it and use.
   */
  ghost predicate IsUnified(lines: seq<Line>, out: seq<Line>) {
    && PathsDistinct(out)
    && (forall k :: 0 <= k < |out| && out[k].Named? ==> Ascending(out[k].symbols))
    && forall path, s :: ImportedBy(out, path, |out|, s) <==> Used(s, lines) && ImportedBy(lines, path, |lines|, s)
  }

  lemma SortedAscends(symbols: seq<string>)
    requires Distinct(symbols) && Sorted(symbols, LexLeq)
    ensures Ascending(symbols)
  {
  }

  lemma TidyAscends(lines: seq<Line>, k: nat)
    requires k < |lines| && Tidy(lines, k) && lines[k].Named?
    ensures Ascending(lines[k].symbols)
  {
    LexTotal(multiset(lines[k].symbols));
    SortSorted(lines[k].symbols, LexLeq);
    SortedAscends(lines[k].symbols);
  }

  lemma NormalIsUnified(lines: seq<Line>)
    requires Normal(lines)
    ensures IsUnified(lines, lines)
  {
    forall k | 0 <= k < |lines| && lines[k].Named? ensures Ascending(lines[k].symbols) {
      TidyAscends(lines, k);
    }
    forall i, j | 0 <= i < j < |lines| && lines[i].Named? && lines[j].Named? ensures lines[i].path != lines[j].path {
      assert !ImportsFrom(lines[i], lines[j].path);
    }
    forall path, s | ImportedBy(lines, path, |lines|, s) ensures Used(s, lines) {
      var k :| 0 <= k < |lines| && ImportsFrom(lines[k], path) && s in lines[k].symbols;
      assert Tidy(lines, k);
    }
  }

  /** The line `u` imports from `path` exactly the used symbols that are imported from it. */
  ghost predicate Serves(lines: seq<Line>, path: string, u: Line) {
    && (u.Named? ==> u.path == path && Ascending(u.symbols))
    && forall s :: (u.Named? && s in u.symbols) <==> Used(s, lines) && ImportedBy(lines, path, |lines|, s)
  }

  lemma UnifiedServes(lines: seq<Line>, path: string, u: Line)
    requires u == Unified(lines, path)
    ensures Serves(lines, path, u)
  {
    UnifiedSymbols(lines, path);
    var symbols := Sort(SymbolsOf(lines, path), LexLeq);
    SortedAscends(symbols);
    assert u.Named? ==> u.symbols == symbols;
    assert u.Other? ==> symbols == [];
  }

  ghost predicate ServesAll(lines: seq<Line>, unified: string -> Line) {
    forall path :: Serves(lines, path, unified(path))
  }

  lemma ResultOf(lines: seq<Line>, unified: string -> Line, out: seq<Line>, path: string, s: string)
    requires ServesAll(lines, unified) && KeepsPath(unified) && out == Rewritten(lines, unified, |lines|)
    ensures ImportedBy(out, path, |out|, s) ==> Used(s, lines) && ImportedBy(lines, path, |lines|, s)
  {
    if ImportedBy(out, path, |out|, s) {
      var k :| 0 <= k < |out| && ImportsFrom(out[k], path) && s in out[k].symbols;
      RewrittenImports(lines, unified, |lines|, out[k]);
      assert Serves(lines, path, unified(path));
    }
  }

  lemma ResultHas(lines: seq<Line>, unified: string -> Line, out: seq<Line>, path: string, s: string)
    requires ServesAll(lines, unified) && out == Rewritten(lines, unified, |lines|)
    requires Used(s, lines) && ImportedBy(lines, path, |lines|, s)
    ensures ImportedBy(out, path, |out|, s)
  {
    var j :| 0 <= j < |lines| && ImportsFrom(lines[j], path) && s in lines[j].symbols;
    assert ImportedUpto(lines, path, |lines|);
    RewrittenKeepsPaths(lines, unified, path, |lines|);
    var k :| 0 <= k < |out| && out[k] == unified(path);
    assert Serves(lines, path, out[k]);
    assert ImportsFrom(out[k], path) && s in out[k].symbols;
  }

  lemma RewrittenIsUnified(lines: seq<Line>, unified: string -> Line, out: seq<Line>)
    requires ServesAll(lines, unified) && KeepsPath(unified) && out == Rewritten(lines, unified, |lines|)
    ensures IsUnified(lines, out)
  {
    RewrittenPathsDistinct(lines, unified, |lines|);
    forall k | 0 <= k < |out| && out[k].Named? ensures Ascending(out[k].symbols) {
      RewrittenImports(lines, unified, |lines|, out[k]);
      assert Serves(lines, out[k].path, unified(out[k].path));
    }
    forall path, s ensures ImportedBy(out, path, |out|, s) <==> Used(s, lines) && ImportedBy(lines, path, |lines|, s) {
      ResultOf(lines, unified, out, path, s);
      if Used(s, lines) && ImportedBy(lines, path, |lines|, s) {
        ResultHas(lines, unified, out, path, s);
      }
    }
  }

  lemma UnifierServes(lines: seq<Line>, unified: string -> Line)
    requires forall path :: unified(path) == Unified(lines, path)
    ensures ServesAll(lines, unified) && KeepsPath(unified)
  {
    forall path ensures Serves(lines, path, unified(path)) {
      UnifiedServes(lines, path, unified(path));
    }
    forall path | unified(path).Named? ensures unified(path).path == path {
      assert Serves(lines, path, unified(path));
    }
  }

  /** For every file, rewritten or not. */
  lemma ProcessUnifies(lines: seq<Line>)
    ensures IsUnified(lines, Process(lines))
  {
    if Normal(lines) {
      NormalIsUnified(lines);
    } else {
      var unified := (path: string) => Unified(lines, path);
      UnifierServes(lines, unified);
      RewrittenIsUnified(lines, unified, Process(lines));
    }
  }

  /** The same for the text that is written, once read again. */
  lemma WrittenIsUnified(lines: seq<string>)
    ensures IsUnified(ParseLines(lines), ParseLines(ProcessText(lines)))
  {
    var p := ParseLines(lines);
    ParsedProper(lines);
    ParsedFromTexts(lines);
    ProcessNormal(p);
    ParsedOfTexts(Process(p));
    ProcessUnifies(p);
  }
}
