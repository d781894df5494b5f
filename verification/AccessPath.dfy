/**
 Access paths of the storage reader, such as `balances[3].owner`: the parser that turns a name
 into its list of accessors, the extraction of the base variable name, and the printer they undo.
 */
module AccessPath {
  import opened Wrappers
  import opened Text

  const BAD_FIELD := "Field names, keys cannot contain square brackets or points"
  const BAD_NAME := "Invalid name"

  /** One step of a path as a user writes it. */
  datatype Accessor = Field(name: string) | Key(name: string)

  function PrintAccessor(a: Accessor): string {
    match a
    case Field(name) => ['.'] + name
    case Key(name) => ['['] + (name + "]")
  }

  function PrintAccessors(path: seq<Accessor>): string {
    if path == [] then "" else PrintAccessor(path[0]) + PrintAccessors(path[1..])
  }

  function PrintPath(base: string, path: seq<Accessor>): string {
    base + PrintAccessors(path)
  }

  function Names(path: seq<Accessor>): (names: seq<string>)
    ensures |names| == |path|
    ensures forall i :: 0 <= i < |path| ==> names[i] == path[i].name
  {
    if path == [] then [] else [path[0].name] + Names(path[1..])
  }

  predicate IsDelimiter(c: char) {
    c == '.' || c == '['
  }

  predicate PlainName(s: string) {
    '.' !in s && '[' !in s && ']' !in s
  }

  ghost predicate PlainPath(path: seq<Accessor>) {
    forall i :: 0 <= i < |path| ==> PlainName(path[i].name)
  }

  function Reverse<T>(s: seq<T>): (r: seq<T>)
    ensures |r| == |s|
    ensures forall i :: 0 <= i < |s| ==> r[i] == s[|s| - 1 - i]
  {
    if s == [] then [] else Reverse(s[1..]) + [s[0]]
  }

  lemma ReverseReverse<T>(s: seq<T>)
    ensures Reverse(Reverse(s)) == s
  {
  }

  // ----- what the parser is to accept, and what it is to return -----

  /** Position `i` lies after a `[` that no `]` has closed yet. */
  ghost predicate Inside(s: string, i: int) {
    exists j :: 0 <= j < i && j < |s| && s[j] == '[' && forall k :: j < k < i && k < |s| ==> s[k] != ']'
  }

  /** From `first` on, brackets are flat and balanced and no `.` occurs inside them. */
  ghost predicate WellBracketed(s: string, first: nat) {
    && (forall i :: first <= i < |s| && IsDelimiter(s[i]) ==> !Inside(s, i))
    && (forall i :: first <= i < |s| && s[i] == ']' ==> Inside(s, i))
    && !Inside(s, |s|)
  }

  /** Position of the first `.` or `[`, or `|s|` when there is neither. */
  function FirstDelimiter(s: string): (i: nat)
    ensures i <= |s|
    ensures i < |s| ==> IsDelimiter(s[i])
    ensures forall k :: 0 <= k < i ==> !IsDelimiter(s[k])
  {
    if s == [] || IsDelimiter(s[0]) then 0 else 1 + FirstDelimiter(s[1..])
  }

  /** The pieces between delimiters, closing brackets dropped. */
  function Segments(s: string): (r: seq<string>)
    ensures |r| >= 1
  {
    if s == [] then [""]
    else if IsDelimiter(s[0]) then [""] + Segments(s[1..])
    else if s[0] == ']' then Segments(s[1..])
    else Prepend([s[0]], Segments(s[1..]))
  }

  function Prepend(str: string, r: seq<string>): seq<string>
    requires |r| >= 1
  {
    [str + r[0]] + r[1..]
  }

  lemma PrependEmpty(r: seq<string>)
    requires |r| >= 1
    ensures Prepend("", r) == r
  {
    assert "" + r[0] == r[0];
  }

  lemma PrependDelimiter(str: string, r: seq<string>)
    ensures Prepend(str, [""] + r) == [str] + r
  {
    assert str + "" == str;
  }

  /** All pieces, when `result` and the unfinished `str` are already read and `rest` is to come. */
  ghost function Pending(result: seq<string>, str: string, rest: string): seq<string> {
    result + Prepend(str, Segments(rest))
  }

  lemma PendingStep(result: seq<string>, str: string, rest: string)
    requires rest != []
    ensures Pending(result, str, rest) ==
      if IsDelimiter(rest[0]) then Pending(result + [str], "", rest[1..])
      else if rest[0] == ']' then Pending(result, str, rest[1..])
      else Pending(result, str + [rest[0]], rest[1..])
  {
    var r := Segments(rest[1..]);
    if IsDelimiter(rest[0]) {
      PrependDelimiter(str, r);
      PrependEmpty(r);
    } else {
      assert str + ([rest[0]] + r[0]) == (str + [rest[0]]) + r[0];
    }
  }

  /** What parsing a name is to give: its accessors last first, or nothing when it is rejected. */
  ghost function ParsedName(s: string): Option<seq<string>> {
    var first := FirstDelimiter(s);
    if first == |s| then Some([])
    else if WellBracketed(s, first) then Some(Reverse(Segments(s[first + 1..])))
    else None
  }

  // ----- the parser -----

  lemma InsideStep(s: string, i: nat)
    requires i < |s|
    ensures Inside(s, i + 1) <==> s[i] == '[' || (Inside(s, i) && s[i] != ']')
  {
    if Inside(s, i) && s[i] != ']' {
      var j :| 0 <= j < i && j < |s| && s[j] == '[' && forall k :: j < k < i && k < |s| ==> s[k] != ']';
      assert forall k :: j < k < i + 1 && k < |s| ==> s[k] != ']';
    }
  }

  /** Inside, read from the right: which suffixes close exactly what is open. */
  predicate Balanced(s: string, open: bool)
  {
    if s == [] then !open
    else if s[0] == '.' then !open && Balanced(s[1..], false)
    else if s[0] == '[' then !open && Balanced(s[1..], true)
    else if s[0] == ']' then open && Balanced(s[1..], false)
    else Balanced(s[1..], open)
  }

  lemma BalancedStep(s: string, open: bool)
    requires s != []
    ensures Balanced(s, open) ==
      if IsDelimiter(s[0]) then !open && Balanced(s[1..], s[0] == '[')
      else if s[0] == ']' then open && Balanced(s[1..], false)
      else Balanced(s[1..], open)
  {
  }

  /** The declarative bracket condition agrees with the one-pass check. */
  lemma {:induction false} WellBracketedIsBalanced(s: string, i: nat)
    requires i <= |s|
    ensures WellBracketed(s, i) <==> Balanced(s[i..], Inside(s, i))
    decreases |s| - i
  {
    if i < |s| {
      InsideStep(s, i);
      WellBracketedIsBalanced(s, i + 1);
      assert s[i..][1..] == s[i + 1..];
    }
  }

  lemma NotInsideBefore(s: string, first: nat)
    requires first <= |s| && forall k :: 0 <= k < first ==> !IsDelimiter(s[k])
    ensures !Inside(s, first)
  {
  }

  /** The parsed name in terms of the text behind the base name. */
  lemma ParsedBehind(s: string, first: nat)
    requires first == FirstDelimiter(s) < |s|
    ensures ParsedName(s) == if Balanced(s[first..], false) then Some(Reverse(Segments(s[first + 1..]))) else None
  {
    NotInsideBefore(s, first);
    WellBracketedIsBalanced(s, first);
  }

  method ParseName(fullName: string) returns (r: Result<seq<string>>)
    ensures r.Ok? <==> ParsedName(fullName).Some?
    ensures r.Ok? ==> r.value == ParsedName(fullName).value
  {
    var firstPoint, firstBracket := Find(fullName, '.'), Find(fullName, '[');
    var n := |fullName|;
    FirstIsLeast(fullName);
    if firstPoint == n && firstBracket == n {
      return Ok([]);
    }
    var first := if firstPoint < firstBracket then firstPoint else firstBracket;
    ParsedBehind(fullName, first);
    r := ParseAccessors(fullName, first);
  }

  /**
   The scanner in front of `rest`: `want` is what it is to return, `ok` whether it is to accept.
   Before the first character nothing has been read.
   */
  ghost predicate Tracks(result: seq<string>, str: string, bracket: bool, rest: string, started: bool, want: seq<string>, ok: bool) {
    && Balanced(rest, bracket) == ok
    && if started then Pending(result, str, rest) == want
       else result == [] && str == "" && !bracket && rest != "" && IsDelimiter(rest[0]) && Segments(rest[1..]) == want
  }

  lemma TracksDelimiter(result: seq<string>, str: string, bracket: bool, rest: string, started: bool, want: seq<string>, ok: bool)
    requires Tracks(result, str, bracket, rest, started, want, ok) && rest != "" && IsDelimiter(rest[0])
    ensures bracket ==> !ok
    ensures !bracket ==> Tracks(if started then result + [str] else [], "", rest[0] == '[', rest[1..], true, want, ok)
  {
    BalancedStep(rest, bracket);
    PendingStep(result, str, rest);
    PrependEmpty(Segments(rest[1..]));
    assert [] + Segments(rest[1..]) == Segments(rest[1..]);
  }

  lemma TracksOther(result: seq<string>, str: string, bracket: bool, rest: string, want: seq<string>, ok: bool)
    requires Tracks(result, str, bracket, rest, true, want, ok) && rest != "" && !IsDelimiter(rest[0])
    ensures rest[0] == ']' && !bracket ==> !ok
    ensures rest[0] == ']' && bracket ==> Tracks(result, str, false, rest[1..], true, want, ok)
    ensures rest[0] != ']' ==> Tracks(result, str + [rest[0]], bracket, rest[1..], true, want, ok)
  {
    BalancedStep(rest, bracket);
    PendingStep(result, str, rest);
  }

  lemma TracksEnd(result: seq<string>, str: string, bracket: bool, want: seq<string>, ok: bool)
    requires Tracks(result, str, bracket, "", true, want, ok)
    ensures ok == !bracket && result + [str] == want
  {
    assert str + "" == str;
  }

  /** The loop of the parser, from the first delimiter on. */
  method ParseAccessors(fullName: string, first: nat) returns (r: Result<seq<string>>)
    requires first < |fullName| && IsDelimiter(fullName[first])
    ensures r.Ok? <==> Balanced(fullName[first..], false)
    ensures r.Ok? ==> r.value == Reverse(Segments(fullName[first + 1..]))
  {
    var n := |fullName|;
    var result: seq<string>, str, bracket := [], "", false;
    ghost var want, ok, rest := Segments(fullName[first + 1..]), Balanced(fullName[first..], false), fullName[first..];
    assert rest[1..] == fullName[first + 1..];
    var i := first;
    while i < n
      invariant first <= i <= n && rest == fullName[i..]
      invariant Tracks(result, str, bracket, rest, i > first, want, ok)
    {
      var c := fullName[i];
      assert rest[0] == c;
      if c == '.' {
        TracksDelimiter(result, str, bracket, rest, i > first, want, ok);
        if bracket {
          return Err(BAD_FIELD);
        }
        if i != first { result := result + [str]; }
        str := "";
      } else if c == '[' {
        TracksDelimiter(result, str, bracket, rest, i > first, want, ok);
        if bracket {
          return Err(BAD_FIELD);
        }
        bracket := true;
        if i != first { result := result + [str]; }
        str := "";
      } else if c == ']' {
        TracksOther(result, str, bracket, rest, want, ok);
        if !bracket {
          return Err(BAD_FIELD);
        }
        bracket := false;
      } else {
        TracksOther(result, str, bracket, rest, want, ok);
        str := str + [c];
      }
      rest := rest[1..];
      i := i + 1;
    }
    assert rest == "";
    TracksEnd(result, str, bracket, want, ok);
    if bracket {
      return Err(BAD_NAME);
    }
    result := result + [str];
    r := Ok(Reverse(result));
  }

  lemma FirstIsLeast(s: string)
    ensures FirstDelimiter(s) == if Find(s, '.') < Find(s, '[') then Find(s, '.') else Find(s, '[')
  {
    var i := if Find(s, '.') < Find(s, '[') then Find(s, '.') else Find(s, '[');
    forall k | 0 <= k < i ensures !IsDelimiter(s[k]) {
      assert s[k] == s[..Find(s, '.')][k] && s[k] == s[..Find(s, '[')][k];
    }
  }

  method GetVariableName(fullName: string) returns (name: string)
    ensures name == fullName[..FirstDelimiter(fullName)]
  {
    FirstIsLeast(fullName);
    name := fullName;
    if Find(name, '[') != |name| {
      name := name[..Find(name, '[')];
    }
    ghost var cut := Find(fullName, '[');
    assert name == fullName[..cut];
    if Find(fullName, '.') < cut {
      assert name[..Find(fullName, '.')] == fullName[..Find(fullName, '.')];
      FindUnique(name, '.', Find(fullName, '.'));
    } else {
      assert name == fullName[..Find(fullName, '.')][..cut];
      FindUnique(name, '.', |name|);
    }
    if Find(name, '.') != |name| {
      name := name[..Find(name, '.')];
    }
  }

  // ----- the round trip -----

  lemma {:induction false} SegmentsOfName(name: string, rest: string)
    requires PlainName(name)
    ensures Segments(name + rest) == Prepend(name, Segments(rest))
    ensures Segments(name + "]" + rest) == Prepend(name, Segments(rest))
  {
    var s, t := name + rest, name + "]" + rest;
    if name == "" {
      assert s == rest;
      assert t[1..] == rest;
      PrependEmpty(Segments(rest));
    } else {
      assert name[0] in name;
      assert forall c :: c in name[1..] ==> c in name;
      SegmentsOfName(name[1..], rest);
      assert s[1..] == name[1..] + rest && t[1..] == name[1..] + "]" + rest;
      assert [name[0]] + (name[1..] + Segments(rest)[0]) == name + Segments(rest)[0];
    }
  }

  lemma SegmentsOfDelimiter(c: char, rest: string)
    requires IsDelimiter(c)
    ensures Segments([c] + rest) == [""] + Segments(rest)
  {
    assert ([c] + rest)[1..] == rest;
  }

  lemma {:induction false} SegmentsOfAccessor(a: Accessor, rest: string)
    requires PlainName(a.name)
    ensures Segments(PrintAccessor(a) + rest) == [""] + Prepend(a.name, Segments(rest))
  {
    SegmentsOfName(a.name, rest);
    if a.Field? {
      assert PrintAccessor(a) + rest == ['.'] + (a.name + rest);
      SegmentsOfDelimiter('.', a.name + rest);
    } else {
      assert PrintAccessor(a) + rest == ['['] + (a.name + "]" + rest);
      SegmentsOfDelimiter('[', a.name + "]" + rest);
    }
  }

  lemma {:induction false} SegmentsOfPrinted(path: seq<Accessor>)
    requires PlainPath(path)
    ensures Segments(PrintAccessors(path)) == [""] + Names(path)
  {
    if path != [] {
      SegmentsOfPrinted(path[1..]);
      SegmentsOfAccessor(path[0], PrintAccessors(path[1..]));
      var names := Names(path[1..]);
      PrependDelimiter(path[0].name, names);
    }
  }

  lemma {:induction false} BalancedPlain(name: string, rest: string, open: bool)
    requires PlainName(name)
    ensures Balanced(name + rest, open) == Balanced(rest, open)
  {
    if name == "" {
      assert name + rest == rest;
    } else {
      assert name[0] in name;
      assert forall c :: c in name[1..] ==> c in name;
      BalancedPlain(name[1..], rest, open);
      assert (name + rest)[1..] == name[1..] + rest;
    }
  }

  lemma BalancedKey(name: string, rest: string)
    requires PlainName(name)
    ensures Balanced((name + "]") + rest, true) == Balanced(rest, false)
  {
    assert (name + "]") + rest == name + ("]" + rest);
    BalancedPlain(name, "]" + rest, true);
    assert ("]" + rest)[1..] == rest;
    BalancedStep("]" + rest, true);
  }

  lemma BalancedDelimiter(c: char, rest: string)
    requires IsDelimiter(c)
    ensures Balanced([c] + rest, false) == Balanced(rest, c == '[')
  {
    assert ([c] + rest)[1..] == rest;
    BalancedStep([c] + rest, false);
  }

  lemma BalancedAccessor(a: Accessor, rest: string)
    requires PlainName(a.name)
    ensures Balanced(PrintAccessor(a) + rest, false) == Balanced(rest, false)
  {
    match a
    case Field(name) =>
      assert PrintAccessor(a) + rest == ['.'] + (name + rest);
      BalancedDelimiter('.', name + rest);
      BalancedPlain(name, rest, false);
    case Key(name) =>
      assert PrintAccessor(a) + rest == ['['] + ((name + "]") + rest);
      BalancedDelimiter('[', (name + "]") + rest);
      BalancedKey(name, rest);
  }

  lemma {:induction false} BalancedPrinted(path: seq<Accessor>)
    requires PlainPath(path)
    ensures Balanced(PrintAccessors(path), false)
  {
    if path != [] {
      BalancedPrinted(path[1..]);
      BalancedAccessor(path[0], PrintAccessors(path[1..]));
    }
  }

  lemma FirstOfPrinted(base: string, path: seq<Accessor>)
    requires '.' !in base && '[' !in base
    ensures FirstDelimiter(PrintPath(base, path)) == |base|
    ensures PrintPath(base, path)[..|base|] == base
    ensures path == [] <==> |base| == |PrintPath(base, path)|
  {
    var s := PrintPath(base, path);
    forall k | 0 <= k < |base| ensures !IsDelimiter(s[k]) {
      assert s[k] == base[k] && base[k] in base;
    }
    if path != [] {
      assert s[|base|] == PrintAccessors(path)[0];
    }
  }

  /** Parsing a printed path gives back its accessors, last first. */
  lemma PathRoundTrip(base: string, path: seq<Accessor>)
    requires '.' !in base && '[' !in base && PlainPath(path)
    ensures ParsedName(PrintPath(base, path)) == Some(Reverse(Names(path)))
  {
    var s := PrintPath(base, path);
    FirstOfPrinted(base, path);
    if path == [] {
      assert Reverse(Names(path)) == [];
    } else {
      assert s[|base|..] == PrintAccessors(path);
      BalancedPrinted(path);
      ParsedBehind(s, |base|);
      SegmentsBehind(s, |base|, path);
    }
  }

  lemma SegmentsBehind(s: string, first: nat, path: seq<Accessor>)
    requires PlainPath(path) && first < |s| && IsDelimiter(s[first]) && s[first..] == PrintAccessors(path)
    ensures Segments(s[first + 1..]) == Names(path)
  {
    SegmentsOfPrinted(path);
    assert s[first..] == [s[first]] + s[first + 1..];
    SegmentsOfDelimiter(s[first], s[first + 1..]);
    var tail := Segments(s[first + 1..]);
    assert tail == ([""] + tail)[1..] == ([""] + Names(path))[1..] == Names(path);
  }
}
