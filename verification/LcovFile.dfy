/** Coverage reports as text: the parser and the printer line by line, and the printer's normal form. */
module LcovFile {
  import opened Text
  import opened Ordering
  import opened LcovFormat
  import opened LcovReport

  // ----- text and entries -----

  function ClassifyAll(lines: seq<string>): (es: seq<Entry>)
    ensures |es| == |lines| && forall i :: 0 <= i < |es| ==> es[i] == Classify(lines[i])
  {
    if lines == [] then [] else ClassifyAll(lines[..|lines| - 1]) + [Classify(lines[|lines| - 1])]
  }

  function EntryTexts(es: seq<Entry>): (lines: seq<string>)
    ensures |lines| == |es| && forall i :: 0 <= i < |es| ==> lines[i] == EntryText(es[i])
  {
    if es == [] then [] else EntryTexts(es[..|es| - 1]) + [EntryText(es[|es| - 1])]
  }

  function EntriesOf(content: string): seq<Entry> {
    ClassifyAll(Split(content, '\n'))
  }

  /** Inside a record every `DA:` line starts with two numbers; elsewhere such lines are ignored. */
  predicate WellFormed(content: string) {
    var es := EntriesOf(content);
    forall i :: 0 <= i < |es| && es[i].Malformed? ==> Run(Start, es[..i]).current == ""
  }

  function ParseText(content: string): Files {
    Run(Start, EntriesOf(content)).files
  }

  ghost function PrintText(files: Files, leq: (string, string) -> bool): string
    requires Total(leq)
  {
    Join(EntryTexts(Entries(files, leq)), '\n') + "\n"
  }

  // ----- what the parser yields -----

  ghost predicate PlainTexts(preamble: seq<string>) {
    forall i :: 0 <= i < |preamble| ==> IsPlain(preamble[i])
  }

  ghost predicate ProperName(file: string) {
    file != "" && '\n' !in file
  }

  /** Records a report can hold: named files, verbatim lines that read as such. */
  ghost predicate Proper(files: Files) {
    forall f :: f in files ==> ProperName(f) && PlainTexts(files[f].preamble)
  }

  ghost predicate ProperState(st: State) {
    Proper(st.files) && '\n' !in st.current && PlainTexts(st.preamble)
  }

  ghost predicate ProperEntry(e: Entry) {
    match e
    case Source(file) => '\n' !in file
    case Plain(text) => IsPlain(text)
    case _ => true
  }

  lemma ClassifyProper(text: string)
    requires '\n' !in text
    ensures ProperEntry(Classify(text))
  {
    if StartsWith(text, "SF:") {
      assert forall c :: c in text[3..] ==> c in text;
    }
  }

  lemma StepProper(st: State, e: Entry)
    requires ProperState(st) && ProperEntry(e)
    ensures ProperState(Step(st, e))
  {
  }

  lemma {:induction false} RunProper(st: State, es: seq<Entry>)
    requires ProperState(st) && forall i :: 0 <= i < |es| ==> ProperEntry(es[i])
    ensures ProperState(Run(st, es))
  {
    if es != [] {
      RunProper(st, es[..|es| - 1]);
      StepProper(Run(st, es[..|es| - 1]), es[|es| - 1]);
    }
  }

  lemma ParsedProper(content: string)
    ensures Proper(ParseText(content))
  {
    var lines := Split(content, '\n');
    forall i | 0 <= i < |lines| ensures ProperEntry(ClassifyAll(lines)[i]) {
      ClassifyProper(lines[i]);
    }
    RunProper(Start, ClassifyAll(lines));
  }

  // ----- printed entries read back -----

  ghost predicate All(es: seq<Entry>, ok: Entry -> bool) {
    forall e :: e in es ==> ok(e)
  }

  lemma RecordAll(file: string, r: FileRecord, ok: Entry -> bool)
    requires ok(TEST_NAME) && ok(Source(file)) && ok(End) && (forall n, h :: ok(Data(n, h)))
    requires forall n :: ok(LinesFound(n)) && ok(LinesHit(n))
    requires forall t :: t in r.preamble ==> ok(Plain(t))
    ensures All(RecordEntries(file, r), ok)
  {
    assert All(Plains(WithoutTestNames(r.preamble)), ok);
    assert All(DataEntries(r.lines), ok);
    assert ok(LinesFound(|r.lines|)) && ok(LinesHit(|Covered(r.lines)|));
  }

  ghost function Readability(): Entry -> bool {
    e => Readable(e)
  }

  lemma RecordReadable(file: string, r: FileRecord, ok: Entry -> bool)
    requires '\n' !in file && PlainTexts(r.preamble) && ok == Readability()
    ensures All(RecordEntries(file, r), ok)
  {
    PlainByFirst("TN:");
    assert ok(TEST_NAME);
    SourceReadable(file);
    EndReadable();
    forall n ensures ok(LinesFound(n)) && ok(LinesHit(n)) { SummaryReadable(n); }
    forall n, h ensures ok(Data(n, h)) { DataReadable(n, h); }
    forall t | t in r.preamble ensures ok(Plain(t)) { PlainReadable(t); }
    RecordAll(file, r, ok);
  }

  lemma {:induction false} FilesReadable(names: seq<string>, files: Files, ok: Entry -> bool)
    requires Proper(files) && ok == Readability() && forall f :: f in names ==> f in files
    ensures All(FilesEntries(names, files), ok)
  {
    if names != [] {
      var f := names[|names| - 1];
      FilesReadable(names[..|names| - 1], files, ok);
      RecordReadable(f, files[f], ok);
    }
  }

  /** Splitting a text of whole lines gives the lines, followed by empty ones. */
  lemma SplitLines(texts: seq<string>)
    requires forall i :: 0 <= i < |texts| ==> '\n' !in texts[i]
    ensures var parts := Split(Join(texts, '\n') + "\n", '\n');
      |texts| < |parts| && parts[..|texts|] == texts && forall i :: |texts| <= i < |parts| ==> parts[i] == ""
  {
    var body := Join(texts, '\n');
    assert body + "\n" == body + ['\n'] + "";
    SplitConcat(body, "", '\n');
    if texts != [] {
      SplitJoin(texts, '\n');
    }
  }

  lemma BlankClassifies()
    ensures Classify("") == Blank("")
  {
  }

  lemma ReadableEntry(e: Entry, t: string, r: Entry)
    requires Readability()(e) && t == EntryText(e) && r == Classify(t)
    ensures r == e && '\n' !in t && !e.Malformed?
  {
  }

  lemma ReadableAt(es: seq<Entry>, texts: seq<string>, read: seq<Entry>, i: nat)
    requires All(es, Readability()) && texts == EntryTexts(es) && read == ClassifyAll(texts) && i < |es|
    ensures read[i] == es[i] && '\n' !in texts[i] && !es[i].Malformed?
  {
    assert es[i] in es;
    ReadableEntry(es[i], texts[i], read[i]);
  }

  lemma ClassifyTexts(es: seq<Entry>)
    requires All(es, Readability())
    ensures ClassifyAll(EntryTexts(es)) == es
    ensures forall i :: 0 <= i < |es| ==> '\n' !in EntryTexts(es)[i] && !es[i].Malformed?
  {
    var texts := EntryTexts(es);
    var read := ClassifyAll(texts);
    forall i | 0 <= i < |es| ensures read[i] == es[i] && '\n' !in texts[i] && !es[i].Malformed? {
      ReadableAt(es, texts, read, i);
    }
  }

  lemma ClassifyPadded(texts: seq<string>, parts: seq<string>)
    requires |texts| <= |parts| && parts[..|texts|] == texts && forall i :: |texts| <= i < |parts| ==> parts[i] == ""
    ensures ClassifyAll(parts)[..|texts|] == ClassifyAll(texts)
    ensures forall i :: |texts| <= i < |parts| ==> ClassifyAll(parts)[i] == Blank("")
  {
    BlankClassifies();
    assert forall i :: 0 <= i < |texts| ==> parts[i] == texts[i];
  }

  lemma {:induction false} RunBlanks(st: State, es: seq<Entry>)
    requires forall i :: 0 <= i < |es| ==> es[i] == Blank("")
    ensures Run(st, es) == st
  {
    if es != [] {
      RunBlanks(st, es[..|es| - 1]);
    }
  }

  /** The lines of the printed text are the printed entries, followed by blank lines. */
  lemma PrintedEntries(files: Files, leq: (string, string) -> bool, es: seq<Entry>, read: seq<Entry>)
    requires Total(leq) && Proper(files) && es == Entries(files, leq) && read == EntriesOf(PrintText(files, leq))
    ensures |es| <= |read| && read[..|es|] == es && forall i :: |es| <= i < |read| ==> read[i] == Blank("")
    ensures forall i :: 0 <= i < |es| ==> !es[i].Malformed?
  {
    FilesReadable(Listing(files.Keys, leq), files, Readability());
    ClassifyTexts(es);
    SplitLines(EntryTexts(es));
    ClassifyPadded(EntryTexts(es), Split(PrintText(files, leq), '\n'));
  }

  /** Printed reports are well formed and read back as the records they print, up to test names. */
  lemma PrintParses(files: Files, leq: (string, string) -> bool)
    requires Total(leq) && Proper(files)
    ensures WellFormed(PrintText(files, leq))
    ensures ParseText(PrintText(files, leq)) == CleanFiles(files)
  {
    var es, read := Entries(files, leq), EntriesOf(PrintText(files, leq));
    PrintedEntries(files, leq, es, read);
    ReadPadded(es, read);
    RunEntries(files, leq);
  }

  lemma ReadPadded(es: seq<Entry>, read: seq<Entry>)
    requires |es| <= |read| && read[..|es|] == es && forall i :: |es| <= i < |read| ==> read[i] == Blank("")
    requires forall i :: 0 <= i < |es| ==> !es[i].Malformed?
    ensures Run(Start, read) == Run(Start, es)
    ensures forall e :: e in read ==> !e.Malformed?
  {
    assert read == es + read[|es|..];
    RunConcat(Start, es, read[|es|..]);
    RunBlanks(Run(Start, es), read[|es|..]);
    forall i | 0 <= i < |read| ensures !read[i].Malformed? {
      if i < |es| { assert read[i] == es[i]; }
    }
  }

  /**
   Printing is a normal form: the printed report reads back as the parsed records up to test
   names, and parsing and printing it again changes nothing.
   */
  lemma NormalForm(content: string, leq: (string, string) -> bool)
    requires WellFormed(content) && Total(leq)
    ensures var printed := PrintText(ParseText(content), leq);
      && WellFormed(printed)
      && ParseText(printed) == CleanFiles(ParseText(content))
      && PrintText(ParseText(printed), leq) == printed
  {
    ParsedProper(content);
    PrintParses(ParseText(content), leq);
    EntriesClean(ParseText(content), leq);
  }

  // ----- reports one after the other -----

  /** The report ends outside a record. */
  predicate Closed(content: string) {
    Run(Start, EntriesOf(content)).current == ""
  }

  /** Outside a record what was collected before no longer matters. */
  lemma {:induction false} RunOutside(a: State, b: State, es: seq<Entry>)
    requires a.files == b.files && a.current == b.current && (a.current == "" || a == b)
    ensures var x, y := Run(a, es), Run(b, es);
      x.files == y.files && x.current == y.current && (x.current == "" || x == y)
  {
    if es != [] {
      RunOutside(a, b, es[..|es| - 1]);
    }
  }

  lemma ClassifyConcat(a: seq<string>, b: seq<string>)
    ensures ClassifyAll(a + b) == ClassifyAll(a) + ClassifyAll(b)
  {
    var l, r := ClassifyAll(a + b), ClassifyAll(a) + ClassifyAll(b);
    forall i | 0 <= i < |a + b| ensures l[i] == r[i] {
      if i < |a| {
        assert (a + b)[i] == a[i];
      } else {
        assert (a + b)[i] == b[i - |a|];
      }
    }
  }

  lemma RunTwice(x: seq<Entry>, y: seq<Entry>)
    requires Run(Start, x).current == ""
    ensures Run(Start, x + y).files == Combine(Run(Start, x).files, Run(Start, y).files)
  {
    var st := Run(Start, x);
    RunConcat(Start, x, y);
    assert Combine(st.files, map[]) == st.files;
    RunOutside(st, After(st.files, Start), y);
    RunCombines(st.files, Start, y);
  }

  lemma EntriesConcat(a: string, b: string)
    ensures EntriesOf(a + "\n" + b) == EntriesOf(a) + EntriesOf(b)
  {
    assert a + "\n" + b == a + ['\n'] + b;
    SplitConcat(a, b, '\n');
    ClassifyConcat(Split(a, '\n'), Split(b, '\n'));
  }

  /**
   The records of two reports written one after the other: those of each, where both have a file
   the first one's verbatim lines and line by line the larger hits.
   */
  lemma ConcatenatedReports(a: string, b: string)
    requires Closed(a)
    ensures ParseText(a + "\n" + b) == Combine(ParseText(a), ParseText(b))
  {
    EntriesConcat(a, b);
    RunTwice(EntriesOf(a), EntriesOf(b));
  }
}
