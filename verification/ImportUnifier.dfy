/**
 Unifying named imports of a Solidity file: one import per path, its symbols sorted, without
 duplicates and without symbols the file never mentions.
 */
module ImportUnifier {
  import opened Text
  import opened Ordering
  import opened ImportSyntax

  // ----- the order of symbols: by code points -----

  predicate LexLeq(a: string, b: string) {
    a == "" || (b != "" && (a[0] < b[0] || (a[0] == b[0] && LexLeq(a[1..], b[1..]))))
  }

  lemma {:induction false} LexReflexive(a: string)
    ensures LexLeq(a, a)
  {
    if a != "" { LexReflexive(a[1..]); }
  }

  lemma {:induction false} LexAntisymmetric(a: string, b: string)
    requires LexLeq(a, b) && LexLeq(b, a)
    ensures a == b
  {
    if a != "" {
      LexAntisymmetric(a[1..], b[1..]);
      assert a == [a[0]] + a[1..] && b == [b[0]] + b[1..];
    }
  }

  lemma {:induction false} LexConnected(a: string, b: string)
    ensures LexLeq(a, b) || LexLeq(b, a)
  {
    if a != "" && b != "" { LexConnected(a[1..], b[1..]); }
  }

  lemma {:induction false} LexTransitive(a: string, b: string, c: string)
    requires LexLeq(a, b) && LexLeq(b, c)
    ensures LexLeq(a, c)
  {
    if a != "" && a[0] == b[0] == c[0] { LexTransitive(a[1..], b[1..], c[1..]); }
  }

  lemma LexTotal(s: multiset<string>)
    ensures TotalOn(LexLeq, s)
  {
    forall x ensures LexLeq(x, x) { LexReflexive(x); }
    forall x, y | LexLeq(x, y) && LexLeq(y, x) ensures x == y { LexAntisymmetric(x, y); }
    forall x, y ensures LexLeq(x, y) || LexLeq(y, x) { LexConnected(x, y); }
    forall x, y, z | LexLeq(x, y) && LexLeq(y, z) ensures LexLeq(x, z) { LexTransitive(x, y, z); }
  }

  // ----- lines -----

  datatype Line = Other(text: string) | Named(path: string, symbols: seq<string>, text: string)

  function ParseLine(text: string): Line {
    match Match(text)
    case None => Other(text)
    case Some(i) => Named(i.path, RawSymbols(i.symbols), text)
  }

  function ParseLines(lines: seq<string>): (p: seq<Line>)
    ensures |p| == |lines| && forall i :: 0 <= i < |lines| ==> p[i] == ParseLine(lines[i])
  {
    if lines == [] then [] else ParseLines(lines[..|lines| - 1]) + [ParseLine(lines[|lines| - 1])]
  }

  function Texts(lines: seq<Line>): (t: seq<string>)
    ensures |t| == |lines| && forall i :: 0 <= i < |lines| ==> t[i] == lines[i].text
  {
    if lines == [] then [] else Texts(lines[..|lines| - 1]) + [lines[|lines| - 1].text]
  }

  predicate OccursAt(text: string, s: string, i: nat) {
    i + |s| <= |text| && text[i..i + |s|] == s
  }

  predicate Contains(text: string, s: string) {
    exists i :: 0 <= i <= |text| && OccursAt(text, s, i)
  }

  /** A symbol counts as used when it is renamed or occurs in a line that is no import. */
  predicate Used(s: string, lines: seq<Line>) {
    Contains(s, " as ") || exists k :: 0 <= k < |lines| && lines[k].Other? && Contains(lines[k].text, s)
  }

  predicate ImportsFrom(l: Line, path: string) {
    l.Named? && l.path == path
  }

  // ----- what each path contributes -----

  /** Adding the used symbols of one import that are not there yet. */
  function AddUsed(acc: seq<string>, symbols: seq<string>, lines: seq<Line>): seq<string> {
    if symbols == [] then acc
    else
      var before, s := AddUsed(acc, symbols[..|symbols| - 1], lines), symbols[|symbols| - 1];
      if s in before || !Used(s, lines) then before else before + [s]
  }

  /** The used symbols imported from `path` by the first `n` lines, in order of appearance. */
  function SymbolsUpto(lines: seq<Line>, path: string, n: nat): seq<string>
    requires n <= |lines|
  {
    if n == 0 then []
    else
      var acc := SymbolsUpto(lines, path, n - 1);
      if ImportsFrom(lines[n - 1], path) then AddUsed(acc, lines[n - 1].symbols, lines) else acc
  }

  ghost predicate ImportedBy(lines: seq<Line>, path: string, n: nat, s: string)
    requires n <= |lines|
  {
    exists k :: 0 <= k < n && ImportsFrom(lines[k], path) && s in lines[k].symbols
  }

  lemma {:induction false} AddUsedMembers(acc: seq<string>, symbols: seq<string>, lines: seq<Line>)
    requires Distinct(acc)
    ensures Distinct(AddUsed(acc, symbols, lines))
    ensures forall s :: s in AddUsed(acc, symbols, lines) <==> s in acc || (s in symbols && Used(s, lines))
  {
    if symbols != [] {
      var init, s := symbols[..|symbols| - 1], symbols[|symbols| - 1];
      AddUsedMembers(acc, init, lines);
      assert symbols == init + [s];
    }
  }

  /** Exactly the used symbols, each once. */
  lemma {:induction false} SymbolsMembers(lines: seq<Line>, path: string, n: nat)
    requires n <= |lines|
    ensures Distinct(SymbolsUpto(lines, path, n))
    ensures forall s :: s in SymbolsUpto(lines, path, n) <==> Used(s, lines) && ImportedBy(lines, path, n, s)
  {
    if n > 0 {
      SymbolsMembers(lines, path, n - 1);
      var acc := SymbolsUpto(lines, path, n - 1);
      if ImportsFrom(lines[n - 1], path) {
        AddUsedMembers(acc, lines[n - 1].symbols, lines);
      }
      forall s ensures ImportedBy(lines, path, n, s) <==>
        ImportedBy(lines, path, n - 1, s) || (ImportsFrom(lines[n - 1], path) && s in lines[n - 1].symbols)
      {
      }
    }
  }

  function SymbolsOf(lines: seq<Line>, path: string): seq<string> {
    SymbolsUpto(lines, path, |lines|)
  }

  // ----- the rewritten file -----

  /** Line `k` is the first import of its path. */
  predicate IsFirst(lines: seq<Line>, k: nat)
    requires k < |lines|
  {
    lines[k].Named? && forall j :: 0 <= j < k ==> !ImportsFrom(lines[j], lines[k].path)
  }

  /** The unified import of a path, or a blank line when nothing of it is used. */
  function Unified(lines: seq<Line>, path: string): Line {
    var symbols := Sort(SymbolsOf(lines, path), LexLeq);
    if symbols == [] then BLANK else Named(path, symbols, PrintImport(symbols, path))
  }

  /** What a line becomes, given the unified line of every path. */
  function Piece(lines: seq<Line>, unified: string -> Line, k: nat): seq<Line>
    requires k < |lines|
  {
    if lines[k].Other? then [lines[k]] else if IsFirst(lines, k) then [unified(lines[k].path)] else []
  }

  function Rewritten(lines: seq<Line>, unified: string -> Line, n: nat): seq<Line>
    requires n <= |lines|
  {
    if n == 0 then [] else Rewritten(lines, unified, n - 1) + Piece(lines, unified, n - 1)
  }

  /** An import in no need of rewriting. */
  ghost predicate Tidy(lines: seq<Line>, k: nat)
    requires k < |lines|
  {
    lines[k].Named? ==>
      && Distinct(lines[k].symbols)
      && lines[k].symbols == Sort(lines[k].symbols, LexLeq)
      && forall s :: s in lines[k].symbols ==> Used(s, lines)
  }

  /** Nothing to do: every import is tidy and no path is imported twice. */
  ghost predicate Normal(lines: seq<Line>) {
    && (forall k :: 0 <= k < |lines| ==> Tidy(lines, k))
    && forall j, k :: 0 <= j < k < |lines| && lines[k].Named? ==> !ImportsFrom(lines[j], lines[k].path)
  }

  ghost function Process(lines: seq<Line>): seq<Line> {
    if Normal(lines) then lines else Rewritten(lines, path => Unified(lines, path), |lines|)
  }

  // ----- each path once, with its used symbols -----

  ghost predicate KeepsPath(unified: string -> Line) {
    forall path :: unified(path).Named? ==> unified(path).path == path
  }

  ghost predicate ImportedUpto(lines: seq<Line>, path: string, n: nat)
    requires n <= |lines|
  {
    exists k :: 0 <= k < n && ImportsFrom(lines[k], path)
  }

  /** Every import of the result is the unified line of a path that was imported before. */
  lemma {:induction false} RewrittenImports(lines: seq<Line>, unified: string -> Line, n: nat, l: Line)
    requires n <= |lines| && KeepsPath(unified) && l in Rewritten(lines, unified, n) && l.Named?
    ensures l == unified(l.path) && ImportedUpto(lines, l.path, n)
  {
    if l in Rewritten(lines, unified, n - 1) {
      RewrittenImports(lines, unified, n - 1, l);
    } else {
      assert l in Piece(lines, unified, n - 1);
      assert ImportsFrom(lines[n - 1], l.path);
    }
  }

  ghost predicate PathsDistinct(lines: seq<Line>) {
    forall i, j :: 0 <= i < j < |lines| && lines[i].Named? && lines[j].Named? ==> lines[i].path != lines[j].path
  }

  lemma PathsDistinctSnoc(lines: seq<Line>, l: Line)
    requires PathsDistinct(lines) && (l.Named? ==> forall x :: x in lines && x.Named? ==> x.path != l.path)
    ensures PathsDistinct(lines + [l])
  {
  }

  /** No path is imported twice in the result. */
  lemma {:induction false} RewrittenPathsDistinct(lines: seq<Line>, unified: string -> Line, n: nat)
    requires n <= |lines| && KeepsPath(unified)
    ensures PathsDistinct(Rewritten(lines, unified, n))
  {
    if n > 0 {
      RewrittenPathsDistinct(lines, unified, n - 1);
      var before, l := Rewritten(lines, unified, n - 1), lines[n - 1];
      if l.Other? {
        PathsDistinctSnoc(before, l);
      } else if IsFirst(lines, n - 1) {
        forall x | x in before && x.Named? ensures x.path != l.path {
          RewrittenImports(lines, unified, n - 1, x);
          var k :| 0 <= k < n - 1 && ImportsFrom(lines[k], x.path);
        }
        PathsDistinctSnoc(before, unified(l.path));
      } else {
        assert before + [] == before;
      }
    }
  }

  /** Every path imported before has its unified line in the result. */
  lemma {:induction false} RewrittenKeepsPaths(lines: seq<Line>, unified: string -> Line, path: string, n: nat)
    requires n <= |lines| && ImportedUpto(lines, path, n)
    ensures unified(path) in Rewritten(lines, unified, n)
  {
    if ImportedUpto(lines, path, n - 1) {
      RewrittenKeepsPaths(lines, unified, path, n - 1);
    } else {
      assert ImportsFrom(lines[n - 1], path) && IsFirst(lines, n - 1);
      assert unified(path) in Piece(lines, unified, n - 1);
    }
  }

  /** The unified list is sorted, duplicate-free and holds exactly the used symbols of the path. */
  lemma UnifiedSymbols(lines: seq<Line>, path: string)
    ensures var symbols := Sort(SymbolsOf(lines, path), LexLeq);
      && Distinct(symbols) && Sorted(symbols, LexLeq) && Sort(symbols, LexLeq) == symbols
      && forall s :: s in symbols <==> Used(s, lines) && ImportedBy(lines, path, |lines|, s)
  {
    var raw := SymbolsOf(lines, path);
    SymbolsMembers(lines, path, |lines|);
    LexTotal(multiset(raw));
    SortSorted(raw, LexLeq);
    SortDistinct(raw, LexLeq);
    LexTotal(multiset(Sort(raw, LexLeq)));
    SortFixed(Sort(raw, LexLeq), LexLeq);
  }

  // ----- the other lines stay -----

  function Others(lines: seq<Line>): seq<Line> {
    if lines == [] then []
    else Others(lines[..|lines| - 1]) + if lines[|lines| - 1].Other? then [lines[|lines| - 1]] else []
  }

  lemma OthersSnoc(lines: seq<Line>, l: Line)
    ensures Others(lines + [l]) == Others(lines) + if l.Other? then [l] else []
  {
    assert (lines + [l])[..|lines|] == lines;
  }

  const BLANK := Other("\n")

  /** `b` is `a`, in order, with `n` blank lines woven in. */
  ghost predicate Woven(a: seq<Line>, b: seq<Line>, n: nat)
    decreases |b|
  {
    if b == [] then a == [] && n == 0
    else
      var rest, l := b[..|b| - 1], b[|b| - 1];
      || (a != [] && a[|a| - 1] == l && Woven(a[..|a| - 1], rest, n))
      || (n > 0 && l == BLANK && Woven(a, rest, n - 1))
  }

  lemma WovenSame(a: seq<Line>, b: seq<Line>, n: nat, l: Line)
    requires Woven(a, b, n)
    ensures Woven(a + [l], b + [l], n)
  {
    assert (a + [l])[..|a|] == a && (b + [l])[..|b|] == b;
  }

  lemma WovenBlank(a: seq<Line>, b: seq<Line>, n: nat)
    requires Woven(a, b, n)
    ensures Woven(a, b + [BLANK], n + 1)
  {
    assert (b + [BLANK])[..|b|] == b;
  }

  lemma {:induction false} WovenSelf(a: seq<Line>)
    ensures Woven(a, a, 0)
  {
    if a != [] {
      WovenSelf(a[..|a| - 1]);
    }
  }

  ghost function ImportedPaths(lines: seq<Line>, n: nat): set<string>
    requires n <= |lines|
  {
    set k | 0 <= k < n && lines[k].Named? :: lines[k].path
  }

  lemma ImportedPathsStep(lines: seq<Line>, n: nat)
    requires n < |lines|
    ensures lines[n].Other? ==> ImportedPaths(lines, n + 1) == ImportedPaths(lines, n)
    ensures lines[n].Named? ==> ImportedPaths(lines, n + 1) == ImportedPaths(lines, n) + {lines[n].path}
    ensures lines[n].Named? ==> (IsFirst(lines, n) <==> lines[n].path !in ImportedPaths(lines, n))
  {
  }

  /** The paths whose unified line is no import. */
  ghost function Emptied(paths: set<string>, unified: string -> Line): set<string> {
    set path | path in paths && unified(path).Other?
  }

  lemma EmptiedAdd(paths: set<string>, path: string, unified: string -> Line)
    ensures path !in paths ==>
      |Emptied(paths + {path}, unified)| == |Emptied(paths, unified)| + (if unified(path).Other? then 1 else 0)
    ensures path in paths ==> Emptied(paths + {path}, unified) == Emptied(paths, unified)
  {
    assert Emptied(paths + {path}, unified) == Emptied(paths, unified) + if unified(path).Other? then {path} else {};
    if path in paths {
      assert paths + {path} == paths;
    }
  }

  ghost function EmptiedUpto(lines: seq<Line>, unified: string -> Line, n: nat): nat
    requires n <= |lines|
  {
    |Emptied(ImportedPaths(lines, n), unified)|
  }

  lemma EmptiedStep(lines: seq<Line>, unified: string -> Line, n: nat)
    requires n < |lines|
    ensures EmptiedUpto(lines, unified, n + 1) == EmptiedUpto(lines, unified, n) +
      (if lines[n].Named? && IsFirst(lines, n) && unified(lines[n].path).Other? then 1 else 0)
  {
    ImportedPathsStep(lines, n);
    if lines[n].Named? {
      EmptiedAdd(ImportedPaths(lines, n), lines[n].path, unified);
    }
  }

  lemma WeaveOther(a: seq<Line>, b: seq<Line>, count: nat, l: Line)
    requires Woven(Others(a), Others(b), count) && l.Other?
    ensures Woven(Others(a + [l]), Others(b + [l]), count)
  {
    OthersSnoc(a, l);
    OthersSnoc(b, l);
    WovenSame(Others(a), Others(b), count, l);
  }

  lemma WeaveImport(a: seq<Line>, b: seq<Line>, count: nat, l: Line, u: Line)
    requires Woven(Others(a), Others(b), count) && l.Named? && (u.Other? ==> u == BLANK)
    ensures Woven(Others(a + [l]), Others(b), count)
    ensures Woven(Others(a + [l]), Others(b + [u]), count + if u.Other? then 1 else 0)
  {
    OthersSnoc(a, l);
    OthersSnoc(b, u);
    assert Others(a) + [] == Others(a) && Others(b) + [] == Others(b);
    WovenBlank(Others(a), Others(b), count);
  }

  /** The first `n` lines and what becomes of them. */
  ghost predicate WeavesUpto(lines: seq<Line>, unified: string -> Line, n: nat, a: seq<Line>, b: seq<Line>, count: nat)
    requires n <= |lines|
  {
    a == lines[..n] && b == Rewritten(lines, unified, n) && count == EmptiedUpto(lines, unified, n)
  }

  predicate BlankAt(lines: seq<Line>, unified: string -> Line, k: nat)
    requires k < |lines|
  {
    lines[k].Named? && IsFirst(lines, k) && unified(lines[k].path).Other?
  }

  lemma WeavesStep(lines: seq<Line>, unified: string -> Line, n: nat, a: seq<Line>, b: seq<Line>, count: nat,
                   a': seq<Line>, b': seq<Line>, count': nat)
    requires n < |lines| && WeavesUpto(lines, unified, n, a, b, count) && WeavesUpto(lines, unified, n + 1, a', b', count')
    ensures a' == a + [lines[n]] && b' == b + Piece(lines, unified, n)
    ensures count' == count + if BlankAt(lines, unified, n) then 1 else 0
  {
    EmptiedStep(lines, unified, n);
  }

  lemma {:induction false} RewrittenWeaves(lines: seq<Line>, unified: string -> Line, n: nat, a: seq<Line>, b: seq<Line>, count: nat)
    requires n <= |lines| && forall path :: unified(path).Other? ==> unified(path) == BLANK
    requires WeavesUpto(lines, unified, n, a, b, count)
    ensures Woven(Others(a), Others(b), count)
  {
    if n == 0 {
      assert ImportedPaths(lines, 0) == {} && Emptied({}, unified) == {};
    } else {
      var a', b', count' := lines[..n - 1], Rewritten(lines, unified, n - 1), EmptiedUpto(lines, unified, n - 1);
      RewrittenWeaves(lines, unified, n - 1, a', b', count');
      WeavesStep(lines, unified, n - 1, a', b', count', a, b, count);
      WeavePiece(a', b', count', lines[n - 1], Piece(lines, unified, n - 1), BlankAt(lines, unified, n - 1));
    }
  }

  lemma WeavePiece(a: seq<Line>, b: seq<Line>, count: nat, l: Line, piece: seq<Line>, blank: bool)
    requires Woven(Others(a), Others(b), count)
    requires l.Other? ==> piece == [l] && !blank
    requires l.Named? ==> piece == [] || (|piece| == 1 && (piece[0].Other? ==> piece[0] == BLANK))
    requires l.Named? ==> (blank <==> piece != [] && piece[0].Other?)
    ensures Woven(Others(a + [l]), Others(b + piece), count + if blank then 1 else 0)
  {
    if l.Other? {
      WeaveOther(a, b, count, l);
    } else if piece == [] {
      WeaveImport(a, b, count, l, l);
      assert b + [] == b;
    } else {
      WeaveImport(a, b, count, l, piece[0]);
      assert piece == [piece[0]];
    }
  }

  /** Nothing imported from the path is used. */
  ghost predicate Unneeded(lines: seq<Line>, path: string) {
    forall s :: ImportedBy(lines, path, |lines|, s) ==> !Used(s, lines)
  }

  ghost function UnneededPaths(lines: seq<Line>): set<string> {
    set path | path in ImportedPaths(lines, |lines|) && Unneeded(lines, path)
  }

  lemma UnneededUnified(lines: seq<Line>, path: string)
    ensures Unified(lines, path).Other? <==> Unneeded(lines, path)
  {
    UnifiedSymbols(lines, path);
    var symbols := Sort(SymbolsOf(lines, path), LexLeq);
    if symbols != [] {
      assert symbols[0] in symbols;
    }
  }

  lemma EmptiedAreUnneeded(lines: seq<Line>, unified: string -> Line)
    requires forall path :: unified(path) == Unified(lines, path)
    ensures EmptiedUpto(lines, unified, |lines|) == |UnneededPaths(lines)|
  {
    forall path ensures unified(path).Other? <==> Unneeded(lines, path) {
      UnneededUnified(lines, path);
    }
    assert Emptied(ImportedPaths(lines, |lines|), unified) == UnneededPaths(lines);
  }

  /**
   The other lines of the file stay, in order. A rewrite adds blank lines only, one for each path
   from which nothing is used.
   */
  lemma ProcessKeepsOthers(lines: seq<Line>)
    ensures Woven(Others(lines), Others(Process(lines)), if Normal(lines) then 0 else |UnneededPaths(lines)|)
  {
    if Normal(lines) {
      WovenSelf(Others(lines));
    } else {
      var unified := path => Unified(lines, path);
      assert lines[..|lines|] == lines;
      RewrittenWeaves(lines, unified, |lines|, lines, Process(lines), EmptiedUpto(lines, unified, |lines|));
      EmptiedAreUnneeded(lines, unified);
    }
  }

  // ----- the result needs no further rewriting -----

  /** What parsing guarantees about every import. */
  ghost predicate Proper(lines: seq<Line>) {
    forall k :: 0 <= k < |lines| && lines[k].Named? ==> IsPath(lines[k].path) && AreSymbols(lines[k].symbols)
  }

  lemma {:induction false} RewrittenOther(lines: seq<Line>, unified: string -> Line, n: nat, x: Line)
    requires n <= |lines| && x in Rewritten(lines, unified, n) && x.Other?
    requires forall path :: unified(path).Other? ==> unified(path) == BLANK
    ensures x in lines || x == BLANK
  {
    if x in Rewritten(lines, unified, n - 1) {
      RewrittenOther(lines, unified, n - 1, x);
    } else {
      assert x in Piece(lines, unified, n - 1);
    }
  }

  lemma {:induction false} RewrittenHasOther(lines: seq<Line>, unified: string -> Line, n: nat, k: nat)
    requires k < n <= |lines| && lines[k].Other?
    ensures lines[k] in Rewritten(lines, unified, n)
  {
    if k < n - 1 {
      RewrittenHasOther(lines, unified, n - 1, k);
    } else {
      assert lines[k] in Piece(lines, unified, n - 1);
    }
  }

  lemma NotInBlank(s: string)
    requires IsSymbol(s)
    ensures !Contains("\n", s)
  {
    assert |"\n"| == 1 && "\n"[0] == '\n' && "\n"[0..1] == "\n";
    forall i | 0 <= i <= 1 ensures !OccursAt("\n", s, i) {
    }
  }

  /** Rewriting changes no symbol's use. */
  lemma UseUnchanged(lines: seq<Line>, unified: string -> Line, s: string)
    requires IsSymbol(s) && forall path :: unified(path).Other? ==> unified(path) == BLANK
    ensures Used(s, Rewritten(lines, unified, |lines|)) <==> Used(s, lines)
  {
    var out := Rewritten(lines, unified, |lines|);
    if !Contains(s, " as ") {
      if Used(s, out) {
        var k :| 0 <= k < |out| && out[k].Other? && Contains(out[k].text, s);
        NotInBlank(s);
        RewrittenOther(lines, unified, |lines|, out[k]);
        var j :| 0 <= j < |lines| && lines[j] == out[k];
      }
      if Used(s, lines) {
        var k :| 0 <= k < |lines| && lines[k].Other? && Contains(lines[k].text, s);
        RewrittenHasOther(lines, unified, |lines|, k);
        var j :| 0 <= j < |out| && out[j] == lines[k];
        assert Contains(out[j].text, s);
      }
    }
  }

  lemma UnifiedShape(lines: seq<Line>, unified: string -> Line)
    requires forall path :: unified(path) == Unified(lines, path)
    ensures KeepsPath(unified) && forall path :: unified(path).Other? ==> unified(path) == BLANK
  {
  }

  lemma UnifiedProper(lines: seq<Line>, path: string)
    requires Proper(lines)
    ensures AreSymbols(Sort(SymbolsOf(lines, path), LexLeq))
  {
    UnifiedSymbols(lines, path);
    var symbols := Sort(SymbolsOf(lines, path), LexLeq);
    forall i | 0 <= i < |symbols| ensures IsSymbol(symbols[i]) {
      assert symbols[i] in symbols;
      assert ImportedBy(lines, path, |lines|, symbols[i]);
      var k :| 0 <= k < |lines| && ImportsFrom(lines[k], path) && symbols[i] in lines[k].symbols;
      var j :| 0 <= j < |lines[k].symbols| && lines[k].symbols[j] == symbols[i];
    }
  }

  lemma RewrittenTidy(lines: seq<Line>, unified: string -> Line, k: nat)
    requires Proper(lines) && forall path :: unified(path) == Unified(lines, path)
    requires k < |Rewritten(lines, unified, |lines|)|
    ensures Tidy(Rewritten(lines, unified, |lines|), k)
  {
    var out := Rewritten(lines, unified, |lines|);
    var l := out[k];
    UnifiedShape(lines, unified);
    if l.Named? {
      assert l in out;
      RewrittenImports(lines, unified, |lines|, l);
      assert l.symbols == Sort(SymbolsOf(lines, l.path), LexLeq);
      UnifiedSymbols(lines, l.path);
      UnifiedProper(lines, l.path);
      forall s | s in l.symbols ensures Used(s, out) {
        UseUnchanged(lines, unified, s);
      }
    }
  }

  lemma RewrittenNormal(lines: seq<Line>, unified: string -> Line)
    requires Proper(lines) && forall path :: unified(path) == Unified(lines, path)
    ensures Normal(Rewritten(lines, unified, |lines|))
  {
    var out := Rewritten(lines, unified, |lines|);
    UnifiedShape(lines, unified);
    forall k | 0 <= k < |out| ensures Tidy(out, k) {
      RewrittenTidy(lines, unified, k);
    }
    RewrittenPathsDistinct(lines, unified, |lines|);
  }

  /**
   When the file is rewritten, an import line survives as it stands exactly when it already is the
   unified line of its path: other spacing, quotes and anything after the semicolon are lost.
   */
  lemma ImportKeptIff(lines: seq<Line>, l: Line)
    requires !Normal(lines) && l in lines && l.Named?
    ensures l in Process(lines) <==> l == Unified(lines, l.path)
  {
    var unified := path => Unified(lines, path);
    UnifiedShape(lines, unified);
    if l in Process(lines) {
      RewrittenImports(lines, unified, |lines|, l);
    }
    var k :| 0 <= k < |lines| && lines[k] == l;
    assert ImportsFrom(lines[k], l.path);
    RewrittenKeepsPaths(lines, unified, l.path, |lines|);
  }

  // ----- on text -----

  lemma ParsedProper(lines: seq<string>)
    ensures Proper(ParseLines(lines))
  {
    forall k | 0 <= k < |lines| && ParseLine(lines[k]).Named?
      ensures IsPath(ParseLine(lines[k]).path) && AreSymbols(ParseLine(lines[k]).symbols)
    {
      MatchedIsProper(lines[k]);
    }
  }

  ghost function ProcessText(lines: seq<string>): seq<string> {
    Texts(Process(ParseLines(lines)))
  }

  lemma UnifiedParses(lines: seq<Line>, path: string)
    requires Proper(lines) && IsPath(path)
    ensures ParseLine(Unified(lines, path).text) == Unified(lines, path)
  {
    var symbols := Sort(SymbolsOf(lines, path), LexLeq);
    if symbols != [] {
      UnifiedProper(lines, path);
      PrintedImportMatches(symbols, path);
      PrintedSymbolsReadBack(symbols);
    } else {
      BlankIsOther();
    }
  }

  lemma BlankIsOther()
    ensures ParseLine("\n") == BLANK
  {
    assert TrimStart("\n") == "";
  }

  lemma NamedParses(p: seq<Line>, unified: string -> Line, x: Line)
    requires Proper(p) && forall path :: unified(path) == Unified(p, path)
    requires x in Rewritten(p, unified, |p|) && x.Named?
    ensures ParseLine(x.text) == x
  {
    UnifiedShape(p, unified);
    RewrittenImports(p, unified, |p|, x);
    var k :| 0 <= k < |p| && ImportsFrom(p[k], x.path);
    UnifiedParses(p, x.path);
  }

  lemma OtherParses(p: seq<Line>, unified: string -> Line, x: Line)
    requires ParsedTexts(p)
    requires forall path :: unified(path) == Unified(p, path)
    requires x in Rewritten(p, unified, |p|) && x.Other?
    ensures ParseLine(x.text) == x
  {
    UnifiedShape(p, unified);
    RewrittenOther(p, unified, |p|, x);
    BlankIsOther();
  }

  ghost predicate ParsedTexts(p: seq<Line>) {
    forall l :: l in p ==> ParseLine(l.text) == l
  }

  lemma ParsedFromTexts(lines: seq<string>)
    ensures ParsedTexts(ParseLines(lines))
  {
  }

  lemma RewrittenParses(p: seq<Line>, unified: string -> Line, x: Line)
    requires Proper(p) && ParsedTexts(p)
    requires forall path :: unified(path) == Unified(p, path)
    requires x in Rewritten(p, unified, |p|)
    ensures ParseLine(x.text) == x
  {
    if x.Named? {
      NamedParses(p, unified, x);
    } else {
      OtherParses(p, unified, x);
    }
  }

  lemma TextsOfParsed(lines: seq<string>)
    ensures Texts(ParseLines(lines)) == lines
  {
    assert forall i :: 0 <= i < |lines| ==> Texts(ParseLines(lines))[i] == lines[i];
  }

  lemma ParsedOfTexts(p: seq<Line>)
    requires ParsedTexts(p)
    ensures ParseLines(Texts(p)) == p
  {
    forall i | 0 <= i < |p| ensures ParseLine(Texts(p)[i]) == p[i] {
      assert p[i] in p;
    }
  }

  /** What a parsed file becomes needs no rewriting and parses as it stands. */
  lemma ProcessNormal(p: seq<Line>)
    requires Proper(p) && ParsedTexts(p)
    ensures Normal(Process(p)) && ParsedTexts(Process(p))
  {
    var unified := (path: string) => Unified(p, path);
    if !Normal(p) {
      var once := Rewritten(p, unified, |p|);
      RewrittenNormal(p, unified);
      forall l | l in once ensures ParseLine(l.text) == l {
        RewrittenParses(p, unified, l);
      }
      assert Process(p) == once;
    }
  }

  /** Running the tool on its own output changes nothing. */
  lemma ProcessIdempotent(lines: seq<string>)
    ensures ProcessText(ProcessText(lines)) == ProcessText(lines)
  {
    var p := ParseLines(lines);
    ParsedProper(lines);
    ParsedFromTexts(lines);
    ProcessNormal(p);
    ParsedOfTexts(Process(p));
  }
}
