/**
 The lines of an LCOV report: how the coverage scripts tell them apart, and how the printer
 writes them.
 */
module LcovFormat {
  import opened Wrappers
  import opened Text

  /** A line of a report, as far as the parser distinguishes lines. */
  datatype Entry =
    | Source(file: string)
    | Data(line: nat, hits: nat)
    | Malformed(text: string)
    | End
    | Summary(text: string)
    | Blank(text: string)
    | Plain(text: string)

  // ----- numbers -----

  function LeadingDigits(s: string): (d: string)
    ensures AllDigits(d)
  {
    if s == "" || !IsDigit(s[0]) then "" else [s[0]] + LeadingDigits(s[1..])
  }

  /** `parseInt(s, 10)` on unsigned numerals; `None` stands for NaN. */
  function ParseInt(s: string): Option<nat> {
    var d := LeadingDigits(TrimStart(s));
    if d == "" then None else Some(DecimalValue(d))
  }

  lemma {:induction false} LeadingDigitsAll(s: string)
    requires AllDigits(s)
    ensures LeadingDigits(s) == s
  {
    if s != "" {
      LeadingDigitsAll(s[1..]);
    }
  }

  lemma ParseDecimal(n: nat)
    ensures ParseInt(Decimal(n)) == Some(n)
  {
    var s := Decimal(n);
    assert IsDigit(s[0]);
    LeadingDigitsAll(s);
    DecimalRoundTrip(n);
  }

  lemma DigitsFree(s: string, c: char)
    requires AllDigits(s) && !IsDigit(c)
    ensures c !in s
  {
  }

  // ----- lines -----

  predicate IsBlank(s: string) {
    TrimStart(s) == ""
  }

  /** `n,h`, possibly followed by more fields. */
  function ParseData(text: string): Entry {
    var parts := Split(text, ',');
    if |parts| < 2 then Malformed(text)
    else match (ParseInt(parts[0]), ParseInt(parts[1]))
      case (Some(n), Some(h)) => Data(n, h)
      case _ => Malformed(text)
  }

  function Classify(text: string): Entry {
    if StartsWith(text, "SF:") then Source(text[3..])
    else if StartsWith(text, "DA:") then ParseData(text[3..])
    else if text == "end_of_record" then End
    else if StartsWith(text, "LF:") || StartsWith(text, "LH:") then Summary(text)
    else if IsBlank(text) then Blank(text)
    else Plain(text)
  }

  function EntryText(e: Entry): string {
    match e
    case Source(file) => "SF:" + file
    case Data(n, h) => "DA:" + (Decimal(n) + [','] + Decimal(h))
    case Malformed(text) => "DA:" + text
    case End => "end_of_record"
    case Summary(text) => text
    case Blank(text) => text
    case Plain(text) => text
  }

  /** Lines that are kept verbatim. */
  predicate IsPlain(text: string) {
    Classify(text) == Plain(text) && '\n' !in text
  }

  /** An entry that survives being written as one line. */
  ghost predicate Readable(e: Entry) {
    !e.Malformed? && Classify(EntryText(e)) == e && '\n' !in EntryText(e)
  }

  lemma DataReadable(n: nat, h: nat)
    ensures Readable(Data(n, h))
  {
    var a, b := Decimal(n), Decimal(h);
    var t := a + [','] + b;
    assert ("DA:" + t)[3..] == t;
    assert ("DA:" + t)[..3] == "DA:";
    DigitsFree(a, ',');
    DigitsFree(b, ',');
    DigitsFree(a, '\n');
    DigitsFree(b, '\n');
    SplitFirst(a, b, ',');
    SplitFirst(b, "", ',');
    ParseDecimal(n);
    ParseDecimal(h);
  }

  lemma SourceReadable(file: string)
    requires '\n' !in file
    ensures Readable(Source(file))
  {
    assert ("SF:" + file)[3..] == file;
    assert ("SF:" + file)[..3] == "SF:";
  }

  function LinesFound(n: nat): Entry { Summary("LF:" + Decimal(n)) }

  function LinesHit(n: nat): Entry { Summary("LH:" + Decimal(n)) }

  lemma SummaryReadable(n: nat)
    ensures Readable(LinesFound(n)) && Readable(LinesHit(n))
  {
    var d := Decimal(n);
    DigitsFree(d, '\n');
    assert ("LF:" + d)[..3] == "LF:" && ("LH:" + d)[..3] == "LH:";
    assert ("LF:" + d)[0] == 'L' && ("LH:" + d)[0] == 'L';
    assert "end_of_record"[0] == 'e' && "SF:"[0] == 'S' && "DA:"[0] == 'D';
  }

  lemma EndReadable()
    ensures Readable(End)
  {
    assert "end_of_record"[0] == 'e' && "SF:"[0] == 'S' && "DA:"[0] == 'D';
  }

  lemma PlainReadable(text: string)
    requires IsPlain(text)
    ensures Readable(Plain(text))
  {
  }

  /** A text whose first character opens none of the recognised records is kept verbatim. */
  lemma PlainByFirst(text: string)
    requires text != "" && text[0] != 'S' && text[0] != 'D' && text[0] != 'e' && text[0] != 'L' && !IsSpace(text[0])
    ensures Classify(text) == Plain(text)
  {
    assert "end_of_record"[0] == 'e' && "SF:"[0] == 'S' && "DA:"[0] == 'D' && "LF:"[0] == 'L' && "LH:"[0] == 'L';
  }

  // ----- function records -----

  /** The lines of a record that the merge looks into. */
  datatype Item =
    | Calls(hits: Option<nat>, name: string)
    | FunctionsHit(count: Option<nat>)
    | Verbatim(text: string)

  /** Hits and name of a function record; the name may contain commas. */
  function ParseCalls(text: string): Item {
    var parts := Split(text, ',');
    Calls(ParseInt(parts[0]), Join(parts[1..], ','))
  }

  function ItemOf(text: string): Item {
    if StartsWith(text, "FNDA:") then ParseCalls(text[5..])
    else if StartsWith(text, "FNH:") then FunctionsHit(ParseInt(text[4..]))
    else Verbatim(text)
  }

  function CallsText(hits: nat, name: string): string {
    "FNDA:" + (Decimal(hits) + [','] + name)
  }

  /** `None` prints as a template literal prints NaN. */
  function FunctionsHitText(count: Option<nat>): string {
    "FNH:" + match count case Some(n) => Decimal(n) case None => "NaN"
  }

  lemma CallsRoundTrip(hits: nat, name: string)
    ensures ItemOf(CallsText(hits, name)) == Calls(Some(hits), name)
  {
    var d := Decimal(hits);
    var t := d + [','] + name;
    assert ("FNDA:" + t)[5..] == t && ("FNDA:" + t)[..5] == "FNDA:";
    DigitsFree(d, ',');
    SplitFirst(d, name, ',');
    assert ([d] + Split(name, ','))[1..] == Split(name, ',');
    JoinSplit(name, ',');
    ParseDecimal(hits);
  }

  lemma FunctionsHitRoundTrip(n: nat)
    ensures ItemOf(FunctionsHitText(Some(n))) == FunctionsHit(Some(n))
  {
    var d := Decimal(n);
    assert ("FNH:" + d)[4..] == d && ("FNH:" + d)[..4] == "FNH:";
    assert ("FNH:" + d)[2] == 'H' && "FNDA:"[2] == 'D';
    ParseDecimal(n);
  }

  lemma NotANumber()
    ensures ItemOf(FunctionsHitText(None)) == FunctionsHit(None)
  {
    assert "FNH:NaN"[4..] == "NaN" && "FNH:NaN"[..4] == "FNH:" && "FNH:NaN"[2] == 'H' && "FNDA:"[2] == 'D';
  }

  lemma CallsTextPlain(hits: nat, name: string)
    requires '\n' !in name
    ensures IsPlain(CallsText(hits, name))
  {
    var t := CallsText(hits, name);
    DigitsFree(Decimal(hits), '\n');
    assert t[0] == 'F';
    PlainByFirst(t);
  }

  lemma FunctionsHitTextPlain(count: Option<nat>)
    ensures IsPlain(FunctionsHitText(count))
  {
    var t := FunctionsHitText(count);
    if count.Some? {
      DigitsFree(Decimal(count.value), '\n');
    }
    assert t[0] == 'F';
    PlainByFirst(t);
  }

  /** The name in a line without line breaks has none either. */
  lemma NameOnOneLine(text: string)
    requires '\n' !in text && ItemOf(text).Calls?
    ensures '\n' !in ItemOf(text).name
  {
    var t := text[5..];
    assert forall c :: c in t ==> c in text;
    JoinSplit(t, ',');
    JoinTail(Split(t, ','), ',', '\n');
  }

  lemma JoinTail(parts: seq<string>, sep: char, c: char)
    requires parts != [] && c !in Join(parts, sep)
    ensures c !in Join(parts[1..], sep)
  {
    if |parts| > 1 {
      assert forall x :: x in Join(parts[1..], sep) ==> x in Join(parts, sep);
    }
  }
}
