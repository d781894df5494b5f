/** The regular expression of the import unifier, as a description of texts, and the matcher that decides it. */
module ImportPattern {
  import opened Wrappers
  import opened Text
  import opened ImportSyntax

  ghost predicate Blank(s: string) {
    forall k :: 0 <= k < |s| ==> IsSpace(s[k])
  }

  /** The texts between the fixed parts of a line that matches, and what follows the match. */
  datatype Gaps = Gaps(front: string, brace: string, from: string, quote: string, open: char, close: char, rest: string)

  ghost predicate AreGaps(g: Gaps) {
    && Blank(g.front) && Blank(g.brace) && Blank(g.from) && Blank(g.quote)
    && (g.open == '"' || g.open == '\'') && (g.close == '"' || g.close == '\'')
  }

  /** `from`, white space, a quoted path and a semicolon. */
  function FromPart(path: string, g: Gaps): string {
    "from" + (g.quote + ([g.open] + (path + ([g.close] + (";" + g.rest)))))
  }

  /** White space, `import`, white space, a symbol text in braces, white space and the rest of the statement. */
  function Spelled(i: Import, g: Gaps): string {
    g.front + ("import" + (g.brace + ("{" + (i.symbols + ("}" + (g.from + FromPart(i.path, g)))))))
  }

  /** The groups of the expression: symbols without closing brace, a path without quotes that is not empty. */
  ghost predicate AreGroups(i: Import) {
    '}' !in i.symbols && i.path != "" && '"' !in i.path && '\'' !in i.path
  }

  // ----- white space -----

  lemma {:induction false} TrimBlank(blank: string, rest: string, s: string)
    requires Blank(blank) && s == blank + rest && (rest == "" || !IsSpace(rest[0]))
    ensures TrimStart(s) == rest
  {
    if blank == "" {
      assert s == rest;
    } else {
      assert s[1..] == blank[1..] + rest;
      TrimBlank(blank[1..], rest, s[1..]);
    }
  }

  lemma {:induction false} TrimmedFront(s: string) returns (blank: string)
    ensures Blank(blank) && s == blank + TrimStart(s)
  {
    if s == "" || !IsSpace(s[0]) {
      blank := "";
    } else {
      var b := TrimmedFront(s[1..]);
      blank := [s[0]] + b;
      BlankCons(s, s[0], b, TrimStart(s[1..]));
    }
  }

  lemma BlankCons(s: string, c: char, blank: string, rest: string)
    requires s != "" && c == s[0] && s[1..] == blank + rest
    ensures s == ([c] + blank) + rest
  {
  }

  lemma Eaten(s: string, token: string, rest: string)
    requires Eat(s, token) == Some(rest)
    ensures s == token + rest
  {
    assert s == s[..|token|] + s[|token|..];
  }

  // ----- every text of the pattern matches -----

  lemma FromMatches(path: string, g: Gaps, s: string)
    requires AreGaps(g) && IsPath(path) && s == FromPart(path, g)
    ensures s != "" && s[0] == 'f' && MatchPath(s) == Some(path)
  {
    var tail := [g.close] + (";" + g.rest);
    var quoted := [g.open] + (path + tail);
    EatToken("from", g.quote + quoted);
    assert !IsSpace(g.open);
    TrimBlank(g.quote, quoted, g.quote + quoted);
    assert quoted[1..] == path + tail;
    UntilQuoteOf(path, tail);
    assert quoted[1 + |path|..] == tail && tail[1] == ';';
  }

  lemma BraceMatches(i: Import, g: Gaps, b: string)
    requires AreGaps(g) && AreGroups(i) && b == i.symbols + ("}" + (g.from + FromPart(i.path, g)))
    ensures Find(b, '}') == |i.symbols| < |b| && b[..|i.symbols|] == i.symbols
    ensures MatchPath(TrimStart(b[|i.symbols| + 1..])) == Some(i.path)
  {
    var part := FromPart(i.path, g);
    CloseBrace(i.symbols, g.from + part, b);
    FromMatches(i.path, g, part);
    TrimBlank(g.from, part, g.from + part);
  }

  lemma SpelledMatches(i: Import, g: Gaps, line: string)
    requires AreGaps(g) && AreGroups(i) && line == Spelled(i, g)
    ensures Match(line) == Some(i)
  {
    var b := i.symbols + ("}" + (g.from + FromPart(i.path, g)));
    var a := g.brace + ("{" + b);
    BraceMatches(i, g, b);
    TrimBlank(g.front, "import" + a, line);
    EatToken("import", a);
    TrimBlank(g.brace, "{" + b, a);
    EatToken("{", b);
  }

  // ----- every match is a text of the pattern -----

  lemma SplitAt(s: string, n: nat, head: string, tail: string)
    requires n <= |s| && head == s[..n] && tail == s[n..]
    ensures s == head + tail
  {
  }

  lemma FirstAndRest(s: string, c: char, rest: string)
    requires s != "" && c == s[0] && rest == s[1..]
    ensures s == [c] + rest
  {
  }

  lemma QuotedParts(b: string, inner: string, path: string, tail: string, semi: string, rest: string)
    requires b != "" && inner == b[1..] && path == UntilQuote(inner) && tail == inner[|path|..]
    requires |tail| >= 2 && tail[1] == ';' && semi == tail[1..] && rest == semi[1..]
    ensures b == [b[0]] + (path + ([tail[0]] + (";" + rest))) && IsQuote(tail[0])
  {
    FirstAndRest(b, b[0], inner);
    SplitAt(inner, |path|, path, tail);
    FirstAndRest(tail, tail[0], semi);
    FirstAndRest(semi, ';', rest);
    AfterQuoteFree(inner, path, tail);
  }

  lemma PathParts(s: string, path: string) returns (a: string, b: string, inner: string, tail: string)
    requires MatchPath(s) == Some(path)
    ensures Eat(s, "from") == Some(a) && b == TrimStart(a) && b != "" && IsQuote(b[0])
    ensures inner == b[1..] && path == UntilQuote(inner) && tail == inner[|path|..] && |tail| >= 2 && tail[1] == ';'
  {
    a := Eat(s, "from").value;
    b := TrimStart(a);
    inner := b[1..];
    tail := inner[|path|..];
    assert tail == b[1 + |path|..];
  }

  lemma MatchedPath(s: string, path: string) returns (quote: string, open: char, close: char, rest: string)
    requires MatchPath(s) == Some(path)
    ensures Blank(quote) && IsQuote(open) && IsQuote(close)
    ensures s == "from" + (quote + ([open] + (path + ([close] + (";" + rest)))))
  {
    var a, b, inner, tail := PathParts(s, path);
    Eaten(s, "from", a);
    quote := TrimmedFront(a);
    open, close, rest := b[0], tail[0], tail[1..][1..];
    QuotedParts(b, inner, path, tail, tail[1..], rest);
  }

  /** What stops the longest prefix without quotes is a quote. */
  lemma {:induction false} AfterQuoteFree(s: string, path: string, tail: string)
    requires path == UntilQuote(s) && s == path + tail && tail != ""
    ensures IsQuote(tail[0])
  {
    if s != "" && !IsQuote(s[0]) {
      assert s[1..] == path[1..] + tail;
      AfterQuoteFree(s[1..], path[1..], tail);
    } else {
      assert path == "" && tail == s;
    }
  }

  lemma MatchedBrace(b: string, symbols: string, tail: string, behind: string)
    requires Find(b, '}') == |symbols| < |b| && symbols == b[..|symbols|] && tail == b[|symbols|..] && behind == tail[1..]
    ensures '}' !in symbols && b == symbols + ("}" + behind)
  {
    SplitAt(b, |symbols|, symbols, tail);
    FirstAndRest(tail, '}', behind);
  }

  lemma LineParts(line: string, i: Import) returns (a: string, b: string, behind: string)
    requires Match(line) == Some(i)
    ensures Eat(TrimStart(line), "import") == Some(a) && Eat(TrimStart(a), "{") == Some(b)
    ensures Find(b, '}') == |i.symbols| < |b| && i.symbols == b[..|i.symbols|] && behind == b[|i.symbols|..][1..]
    ensures MatchPath(TrimStart(behind)) == Some(i.path)
  {
    a := Eat(TrimStart(line), "import").value;
    b := Eat(TrimStart(a), "{").value;
    behind := b[|i.symbols|..][1..];
    assert behind == b[|i.symbols| + 1..];
  }

  lemma MatchSpells(line: string, i: Import) returns (g: Gaps)
    requires Match(line) == Some(i)
    ensures AreGaps(g) && AreGroups(i) && line == Spelled(i, g)
  {
    var a, b, behind := LineParts(line, i);
    var front := TrimmedFront(line);
    Eaten(TrimStart(line), "import", a);
    var brace := TrimmedFront(a);
    Eaten(TrimStart(a), "{", b);
    MatchedBrace(b, i.symbols, b[|i.symbols|..], behind);
    var from := TrimmedFront(behind);
    var quote, open, close, rest := MatchedPath(TrimStart(behind), i.path);
    g := Gaps(front, brace, from, quote, open, close, rest);
    assert IsPath(i.path);
  }

  /** A line matches with these groups if and only if it is spelled that way. */
  lemma MatchIff(line: string, i: Import)
    ensures Match(line) == Some(i) <==> AreGroups(i) && exists g :: AreGaps(g) && line == Spelled(i, g)
  {
    if Match(line) == Some(i) {
      var g := MatchSpells(line, i);
    }
    if AreGroups(i) {
      if g :| AreGaps(g) && line == Spelled(i, g) {
        SpelledMatches(i, g, line);
      }
    }
  }
}
