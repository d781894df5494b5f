/**
 Named Solidity imports, `import {a, b} from "path";`: recognising a line as one, splitting its
 symbol list, and printing the canonical form.
 */
module ImportSyntax {
  import opened Wrappers
  import opened Text

  datatype Import = Import(symbols: string, path: string)

  predicate IsQuote(c: char) {
    c == '"' || c == '\''
  }

  // ----- the matcher, from left to right -----

  /** What follows `token` at the start of `s`. */
  function Eat(s: string, token: string): Option<string> {
    if StartsWith(s, token) then Some(s[|token|..]) else None
  }

  /** The longest prefix without quotes. */
  function UntilQuote(s: string): (r: string)
    ensures r <= s && forall k :: 0 <= k < |r| ==> !IsQuote(r[k])
  {
    if s == "" || IsQuote(s[0]) then "" else [s[0]] + UntilQuote(s[1..])
  }

  /** The regular expression of the script, group by group; the rest of the line is free. */
  function Match(line: string): Option<Import> {
    match Eat(TrimStart(line), "import")
    case None => None
    case Some(a) =>
      match Eat(TrimStart(a), "{")
      case None => None
      case Some(b) =>
        var close := Find(b, '}');
        if close == |b| then None
        else match MatchPath(TrimStart(b[close + 1..]))
          case None => None
          case Some(path) => Some(Import(b[..close], path))
  }

  /** `from "path";` */
  function MatchPath(s: string): (r: Option<string>)
    ensures r.Some? ==> r.value != "" && forall k :: 0 <= k < |r.value| ==> !IsQuote(r.value[k])
  {
    match Eat(s, "from")
    case None => None
    case Some(a) =>
      var b := TrimStart(a);
      if b == "" || !IsQuote(b[0]) then None
      else
        var path := UntilQuote(b[1..]);
        var rest := b[1 + |path|..];
        if path == "" || |rest| < 2 || rest[1] != ';' then None else Some(path)
  }

  // ----- symbol lists -----

  function StripAll(parts: seq<string>): seq<string> {
    if parts == [] then []
    else
      var s := Strip(parts[0]);
      (if s == "" then [] else [s]) + StripAll(parts[1..])
  }

  /** The symbols between the braces, stripped, blanks left out. */
  function RawSymbols(text: string): seq<string> {
    StripAll(Split(text, ','))
  }

  /** A symbol as it comes out of `RawSymbols`. */
  predicate IsSymbol(s: string) {
    s != "" && !IsSpace(s[0]) && !IsSpace(s[|s| - 1]) && ',' !in s && '}' !in s
  }

  function JoinSymbols(symbols: seq<string>): string {
    if symbols == [] then "" else if |symbols| == 1 then symbols[0] else symbols[0] + ", " + JoinSymbols(symbols[1..])
  }

  /** `from "path";`, token by token. */
  function PrintFrom(path: string): string {
    "from" + (" " + ("\"" + (path + "\";\n")))
  }

  /** `import {text} from "path";`, token by token. */
  function PrintLine(text: string, path: string): string {
    "import" + (" " + ("{" + (text + ("}" + (" " + PrintFrom(path))))))
  }

  function PrintImport(symbols: seq<string>, path: string): string {
    PrintLine(JoinSymbols(symbols), path)
  }

  // ----- the printed form is recognised -----

  lemma EatToken(token: string, rest: string)
    ensures Eat(token + rest, token) == Some(rest)
  {
    assert (token + rest)[..|token|] == token && (token + rest)[|token|..] == rest;
  }

  lemma {:induction false} UntilQuoteOf(path: string, rest: string)
    requires rest != "" && IsQuote(rest[0]) && forall k :: 0 <= k < |path| ==> !IsQuote(path[k])
    ensures UntilQuote(path + rest) == path
  {
    if path == "" {
      assert path + rest == rest;
    } else {
      assert (path + rest)[1..] == path[1..] + rest;
      UntilQuoteOf(path[1..], rest);
    }
  }

  predicate IsPath(path: string) {
    path != "" && forall k :: 0 <= k < |path| ==> !IsQuote(path[k])
  }

  lemma SkipBlank(rest: string)
    requires rest != "" && !IsSpace(rest[0])
    ensures TrimStart(" " + rest) == rest
  {
    assert (" " + rest)[1..] == rest;
  }

  lemma QuotedPath(path: string, quoted: string)
    requires IsPath(path) && quoted == "\"" + (path + "\";\n")
    ensures |quoted| > 1 && quoted[0] == '"' && UntilQuote(quoted[1..]) == path
    ensures quoted[1 + |path|..] == "\";\n"
  {
    assert quoted[1..] == path + "\";\n";
    UntilQuoteOf(path, "\";\n");
  }

  lemma MatchPathOf(path: string)
    requires IsPath(path)
    ensures MatchPath(PrintFrom(path)) == Some(path)
  {
    var quoted := "\"" + (path + "\";\n");
    EatToken("from", " " + quoted);
    QuotedPath(path, quoted);
    SkipBlank(quoted);
  }

  lemma CloseBrace(text: string, rest: string, b: string)
    requires '}' !in text && b == text + ("}" + rest)
    ensures Find(b, '}') == |text| < |b| && b[..|text|] == text && b[|text| + 1..] == rest
  {
    assert b[|text|] == '}' && b[..|text|] == text;
    FindUnique(b, '}', |text|);
  }

  /** What the matcher does behind the opening brace. */
  lemma MatchBehindBrace(line: string, a: string, b: string, text: string, path: string)
    requires TrimStart(line) == line && Eat(line, "import") == Some(a) && Eat(TrimStart(a), "{") == Some(b)
    requires Find(b, '}') == |text| < |b| && b[..|text|] == text
    requires MatchPath(TrimStart(b[|text| + 1..])) == Some(path)
    ensures Match(line) == Some(Import(text, path))
  {
  }

  lemma NoBlankInFront(line: string, rest: string)
    requires line == "import" + rest
    ensures TrimStart(line) == line
  {
    assert line[0] == 'i';
  }

  lemma MatchBraces(text: string, path: string)
    requires '}' !in text && IsPath(path)
    ensures Match(PrintLine(text, path)) == Some(Import(text, path))
  {
    var rest := PrintFrom(path);
    var b := text + ("}" + (" " + rest));
    var a := " " + ("{" + b);
    var line := PrintLine(text, path);
    NoBlankInFront(line, a);
    EatToken("import", a);
    SkipBlank("{" + b);
    EatToken("{", b);
    CloseBrace(text, " " + rest, b);
    SkipBlank(rest);
    MatchPathOf(path);
    MatchBehindBrace(line, a, b, text, path);
  }

  // ----- the symbol list is read back -----

  lemma {:induction false} JoinPlain(symbols: seq<string>)
    requires forall i :: 0 <= i < |symbols| ==> IsSymbol(symbols[i])
    ensures '}' !in JoinSymbols(symbols)
  {
    if |symbols| > 1 {
      JoinPlain(symbols[1..]);
    }
  }

  lemma StripSymbol(s: string)
    requires IsSymbol(s)
    ensures Strip(s) == s && Strip(" " + s) == s
  {
    assert (" " + s)[1..] == s;
    assert TrimStart(" " + s) == TrimStart(s) == s;
  }

  predicate IsLead(lead: string) {
    lead == "" || lead == " "
  }

  lemma StripLead(lead: string, s: string)
    requires IsLead(lead) && IsSymbol(s)
    ensures Strip(lead + s) == s && ',' !in lead + s
  {
    StripSymbol(s);
    if lead == "" {
      assert lead + s == s;
    }
  }

  lemma ReadLast(lead: string, s: string)
    requires IsLead(lead) && IsSymbol(s)
    ensures RawSymbols(lead + s) == [s]
  {
    StripLead(lead, s);
    SplitFirst(lead + s, "", ',');
    assert [lead + s][1..] == [];
    assert StripAll([lead + s]) == [s] + StripAll([]);
  }

  lemma ReadNext(lead: string, s: string, rest: string)
    requires IsLead(lead) && IsSymbol(s)
    ensures RawSymbols((lead + s) + [','] + rest) == [s] + RawSymbols(rest)
  {
    StripLead(lead, s);
    SplitFirst(lead + s, rest, ',');
    assert ([lead + s] + Split(rest, ','))[1..] == Split(rest, ',');
  }

  /** Reading a joined list; every part but the first carries a leading blank. */
  lemma {:induction false} SymbolsReadBack(symbols: seq<string>, lead: string)
    requires symbols != [] && IsLead(lead)
    requires forall i :: 0 <= i < |symbols| ==> IsSymbol(symbols[i])
    ensures RawSymbols(lead + JoinSymbols(symbols)) == symbols
  {
    var s := symbols[0];
    if |symbols| == 1 {
      ReadLast(lead, s);
      assert symbols == [s];
    } else {
      var rest := " " + JoinSymbols(symbols[1..]);
      SymbolsReadBack(symbols[1..], " ");
      ReadNext(lead, s, rest);
      assert lead + JoinSymbols(symbols) == (lead + s) + [','] + rest;
      assert symbols == [s] + symbols[1..];
    }
  }

  /** A list of proper symbols. */
  ghost predicate AreSymbols(symbols: seq<string>) {
    forall i :: 0 <= i < |symbols| ==> IsSymbol(symbols[i])
  }

  /** The canonical line of a path is an import of that path... */
  lemma PrintedImportMatches(symbols: seq<string>, path: string)
    requires IsPath(path) && AreSymbols(symbols)
    ensures Match(PrintImport(symbols, path)) == Some(Import(JoinSymbols(symbols), path))
  {
    JoinPlain(symbols);
    MatchBraces(JoinSymbols(symbols), path);
  }

  /** ...with exactly the given symbols. */
  lemma PrintedSymbolsReadBack(symbols: seq<string>)
    requires symbols != [] && AreSymbols(symbols)
    ensures RawSymbols(JoinSymbols(symbols)) == symbols
  {
    SymbolsReadBack(symbols, "");
    assert "" + JoinSymbols(symbols) == JoinSymbols(symbols);
  }

  // ----- what the matcher yields -----

  lemma {:induction false} TrimStartPart(s: string)
    ensures |TrimStart(s)| <= |s| && TrimStart(s) == s[|s| - |TrimStart(s)|..]
  {
    if s != "" && IsSpace(s[0]) {
      TrimStartPart(s[1..]);
    }
  }

  lemma StripKeepsFree(s: string, c: char)
    requires c !in s
    ensures c !in Strip(s)
  {
    TrimStartPart(s);
    var t := TrimStart(s);
    assert forall x :: x in t ==> x in s;
    assert forall x :: x in TrimEnd(t) ==> x in t;
  }

  lemma StrippedIsSymbol(part: string)
    requires ',' !in part && '}' !in part && Strip(part) != ""
    ensures IsSymbol(Strip(part))
  {
    StripKeepsFree(part, ',');
    StripKeepsFree(part, '}');
    var t := TrimStart(part);
    assert Strip(part)[0] == t[0];
  }

  lemma {:induction false} StripAllSymbols(parts: seq<string>)
    requires forall i :: 0 <= i < |parts| ==> ',' !in parts[i] && '}' !in parts[i]
    ensures forall s :: s in StripAll(parts) ==> IsSymbol(s)
  {
    if parts != [] {
      StripAllSymbols(parts[1..]);
      if Strip(parts[0]) != "" {
        StrippedIsSymbol(parts[0]);
      }
    }
  }

  lemma {:induction false} SplitKeepsFree(s: string, sep: char, c: char)
    requires c !in s
    ensures forall i :: 0 <= i < |Split(s, sep)| ==> c !in Split(s, sep)[i]
  {
    if s != "" {
      assert s[0] in s && forall x :: x in s[1..] ==> x in s;
      SplitKeepsFree(s[1..], sep, c);
    }
  }

  /** Every recognised import has a proper path and proper symbols. */
  lemma MatchedIsProper(line: string)
    requires Match(line).Some?
    ensures IsPath(Match(line).value.path)
    ensures forall s :: s in RawSymbols(Match(line).value.symbols) ==> IsSymbol(s)
  {
    var text := Match(line).value.symbols;
    assert '}' !in text;
    SplitKeepsFree(text, ',', '}');
    StripAllSymbols(Split(text, ','));
  }
}
