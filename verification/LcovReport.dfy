/**
 Coverage reports: parsing the lines of an LCOV file into one record per source file, and
 printing the records back.
 */
module LcovReport {
  import opened Text
  import opened Ordering
  import opened LcovFormat

  /** Lines kept verbatim, and hits by line number. */
  datatype FileRecord = FileRecord(preamble: seq<string>, lines: map<nat, nat>)

  type Files = map<string, FileRecord>

  // ----- hits -----

  function Max(a: nat, b: nat): nat { if a < b then b else a }

  function HitsAt(lines: map<nat, nat>, n: nat): nat {
    if n in lines then lines[n] else 0
  }

  function Raise(lines: map<nat, nat>, n: nat, h: nat): map<nat, nat> {
    lines[n := Max(HitsAt(lines, n), h)]
  }

  /** Line by line the larger count. */
  function MaxLines(a: map<nat, nat>, b: map<nat, nat>): map<nat, nat> {
    map n | n in a.Keys + b.Keys :: Max(HitsAt(a, n), HitsAt(b, n))
  }

  // ----- parsing -----

  /** The parser between two lines; outside a record `current` is empty. */
  datatype State = State(files: Files, current: string, preamble: seq<string>, lines: map<nat, nat>)

  const Start := State(map[], "", [], map[])

  /** A finished record is stored, or raises the hits of the record stored before under its name. */
  function Store(files: Files, file: string, preamble: seq<string>, lines: map<nat, nat>): Files {
    if file in files then files[file := FileRecord(files[file].preamble, MaxLines(files[file].lines, lines))]
    else files[file := FileRecord(preamble, lines)]
  }

  function Step(st: State, e: Entry): State {
    if e.Source? then State(st.files, e.file, [], map[])
    else if st.current == "" then st
    else match e
      case Data(n, h) => st.(lines := Raise(st.lines, n, h))
      case End => st.(files := Store(st.files, st.current, st.preamble, st.lines), current := "")
      case Plain(text) => st.(preamble := st.preamble + [text])
      case _ => st
  }

  function Run(st: State, es: seq<Entry>): State {
    if es == [] then st else Step(Run(st, es[..|es| - 1]), es[|es| - 1])
  }

  lemma RunSnoc(st: State, es: seq<Entry>, e: Entry)
    ensures Run(st, es + [e]) == Step(Run(st, es), e)
  {
    assert (es + [e])[..|es|] == es;
  }

  lemma {:induction false} RunConcat(st: State, a: seq<Entry>, b: seq<Entry>)
    ensures Run(st, a + b) == Run(Run(st, a), b)
  {
    if b == [] {
      assert a + b == a;
    } else {
      var init, e := b[..|b| - 1], b[|b| - 1];
      assert b == init + [e] && a + b == (a + init) + [e];
      RunConcat(st, a, init);
      RunSnoc(st, a + init, e);
    }
  }

  // ----- a report followed by another -----

  /** The records of two reports: the first one's text, line by line the larger hits. */
  function Combine(a: Files, b: Files): Files {
    map f | f in a.Keys + b.Keys ::
      if f in a && f in b then FileRecord(a[f].preamble, MaxLines(a[f].lines, b[f].lines))
      else if f in a then a[f] else b[f]
  }

  lemma HitsOfMax(a: map<nat, nat>, b: map<nat, nat>, n: nat)
    ensures HitsAt(MaxLines(a, b), n) == Max(HitsAt(a, n), HitsAt(b, n))
  {
  }

  lemma MaxLinesAssociative(a: map<nat, nat>, b: map<nat, nat>, c: map<nat, nat>)
    ensures MaxLines(MaxLines(a, b), c) == MaxLines(a, MaxLines(b, c))
  {
    var l, r := MaxLines(MaxLines(a, b), c), MaxLines(a, MaxLines(b, c));
    assert l.Keys == r.Keys;
    forall n | n in l.Keys ensures l[n] == r[n] {
      HitsOfMax(a, b, n);
      HitsOfMax(b, c, n);
    }
  }

  lemma StoreCombinesAt(a: Files, b: Files, file: string, preamble: seq<string>, lines: map<nat, nat>)
    ensures Store(Combine(a, b), file, preamble, lines)[file] == Combine(a, Store(b, file, preamble, lines))[file]
  {
    if file in a && file in b {
      MaxLinesAssociative(a[file].lines, b[file].lines, lines);
    }
  }

  lemma StoreCombines(a: Files, b: Files, file: string, preamble: seq<string>, lines: map<nat, nat>)
    ensures Store(Combine(a, b), file, preamble, lines) == Combine(a, Store(b, file, preamble, lines))
  {
    var l, r := Store(Combine(a, b), file, preamble, lines), Combine(a, Store(b, file, preamble, lines));
    assert l.Keys == r.Keys;
    forall f | f in l.Keys ensures l[f] == r[f] {
      if f == file {
        StoreCombinesAt(a, b, file, preamble, lines);
      }
    }
  }

  /** `st`, had `files` been stored before. */
  function After(files: Files, st: State): State {
    st.(files := Combine(files, st.files))
  }

  lemma StepCombines(files: Files, st: State, e: Entry)
    ensures Step(After(files, st), e) == After(files, Step(st, e))
  {
    if e.End? && st.current != "" {
      StoreCombines(files, st.files, st.current, st.preamble, st.lines);
    }
  }

  /** What is already stored does not change how further lines are read. */
  lemma {:induction false} RunCombines(files: Files, st: State, es: seq<Entry>)
    ensures Run(After(files, st), es) == After(files, Run(st, es))
  {
    if es != [] {
      RunCombines(files, st, es[..|es| - 1]);
      StepCombines(files, Run(st, es[..|es| - 1]), es[|es| - 1]);
    }
  }

  // ----- printing -----

  function Covered(lines: map<nat, nat>): set<nat> {
    set n | n in lines && lines[n] > 0
  }

  predicate IsTestName(text: string) {
    StartsWith(text, "TN:")
  }

  function WithoutTestNames(preamble: seq<string>): (r: seq<string>)
    ensures forall t :: t in r <==> t in preamble && !IsTestName(t)
  {
    if preamble == [] then []
    else
      var t := preamble[|preamble| - 1];
      assert preamble == preamble[..|preamble| - 1] + [t];
      WithoutTestNames(preamble[..|preamble| - 1]) + if IsTestName(t) then [] else [t]
  }

  function Plains(texts: seq<string>): (es: seq<Entry>)
    ensures |es| == |texts| && forall i :: 0 <= i < |es| ==> es[i] == Plain(texts[i])
  {
    seq(|texts|, i requires 0 <= i < |texts| => Plain(texts[i]))
  }

  function DataOf(numbers: seq<nat>, lines: map<nat, nat>): (es: seq<Entry>)
    requires forall n :: n in numbers ==> n in lines
    ensures |es| == |numbers| && forall i :: 0 <= i < |es| ==> es[i] == Data(numbers[i], lines[numbers[i]])
  {
    seq(|numbers|, i requires 0 <= i < |numbers| => Data(numbers[i], lines[numbers[i]]))
  }

  function LineLeq(a: nat, b: nat): bool { a <= b }

  ghost function DataEntries(lines: map<nat, nat>): seq<Entry> {
    DataOf(Listing(lines.Keys, LineLeq), lines)
  }

  const TEST_NAME := Plain("TN:")

  ghost function RecordEntries(file: string, r: FileRecord): seq<Entry> {
    [TEST_NAME, Source(file)] + Plains(WithoutTestNames(r.preamble)) + DataEntries(r.lines) +
    [LinesFound(|r.lines|), LinesHit(|Covered(r.lines)|), End]
  }

  ghost function FilesEntries(names: seq<string>, files: Files): seq<Entry>
    requires forall f :: f in names ==> f in files
  {
    if names == [] then []
    else
      var f := names[|names| - 1];
      FilesEntries(names[..|names| - 1], files) + RecordEntries(f, files[f])
  }

  ghost function Entries(files: Files, leq: (string, string) -> bool): seq<Entry>
    requires Total(leq)
  {
    FilesEntries(Listing(files.Keys, leq), files)
  }

  // ----- reading a printed report back -----

  function Clean(r: FileRecord): FileRecord {
    FileRecord(WithoutTestNames(r.preamble), r.lines)
  }

  /** The records without their test-name lines. */
  function CleanFiles(files: Files): Files {
    map f | f in files :: Clean(files[f])
  }

  lemma {:induction false} RunPlains(st: State, texts: seq<string>)
    requires st.current != ""
    ensures Run(st, Plains(texts)) == st.(preamble := st.preamble + texts)
  {
    if texts == [] {
      assert st.preamble + [] == st.preamble;
    } else {
      var init, t := texts[..|texts| - 1], texts[|texts| - 1];
      RunPlains(st, init);
      assert Plains(texts) == Plains(init) + [Plain(t)];
      RunSnoc(st, Plains(init), Plain(t));
      assert st.preamble + texts == (st.preamble + init) + [t];
    }
  }

  function Restrict(lines: map<nat, nat>, numbers: seq<nat>): map<nat, nat>
    requires forall n :: n in numbers ==> n in lines
  {
    map n | n in numbers :: lines[n]
  }

  lemma RestrictSnoc(lines: map<nat, nat>, numbers: seq<nat>, n: nat)
    requires n in lines && n !in numbers && forall m :: m in numbers ==> m in lines
    ensures Restrict(lines, numbers + [n]) == Raise(Restrict(lines, numbers), n, lines[n])
  {
    assert n !in Restrict(lines, numbers);
  }

  lemma {:induction false} RunData(st: State, numbers: seq<nat>, lines: map<nat, nat>)
    requires st.current != "" && st.lines == map[] && Distinct(numbers) && forall n :: n in numbers ==> n in lines
    ensures Run(st, DataOf(numbers, lines)) == st.(lines := Restrict(lines, numbers))
  {
    if numbers == [] {
      assert Restrict(lines, []) == map[];
    } else {
      var init, n := numbers[..|numbers| - 1], numbers[|numbers| - 1];
      assert numbers == init + [n] && n !in init;
      RunData(st, init, lines);
      RestrictSnoc(lines, init, n);
      assert DataOf(numbers, lines) == DataOf(init, lines) + [Data(n, lines[n])];
      RunSnoc(st, DataOf(init, lines), Data(n, lines[n]));
    }
  }

  lemma RestrictAll(lines: map<nat, nat>, numbers: seq<nat>)
    requires forall n :: n in numbers <==> n in lines
    ensures Restrict(lines, numbers) == lines
  {
  }

  lemma RunAllData(st: State, lines: map<nat, nat>)
    requires st.current != "" && st.lines == map[]
    ensures Run(st, DataEntries(lines)) == st.(lines := lines)
  {
    var numbers := Listing(lines.Keys, LineLeq);
    RunData(st, numbers, lines);
    RestrictAll(lines, numbers);
  }

  lemma RunOpening(st: State, file: string)
    requires st.current == ""
    ensures Run(st, [TEST_NAME, Source(file)]) == State(st.files, file, [], map[])
  {
    RunSnoc(st, [], TEST_NAME);
    RunSnoc(st, [TEST_NAME], Source(file));
    assert [TEST_NAME, Source(file)] == [TEST_NAME] + [Source(file)];
    assert [] + [TEST_NAME] == [TEST_NAME];
  }

  lemma RunClosing(st: State, a: Entry, b: Entry)
    requires st.current != "" && a.Summary? && b.Summary?
    ensures Run(st, [a, b, End]) == Step(st, End)
  {
    RunSnoc(st, [], a);
    RunSnoc(st, [a], b);
    RunSnoc(st, [a, b], End);
    assert [] + [a] == [a] && [a] + [b] == [a, b] && [a, b] + [End] == [a, b, End];
  }

  lemma RunFour(st: State, a: seq<Entry>, b: seq<Entry>, c: seq<Entry>, d: seq<Entry>, s1: State, s2: State, s3: State)
    requires Run(st, a) == s1 && Run(s1, b) == s2 && Run(s2, c) == s3
    ensures Run(st, a + b + c + d) == Run(s3, d)
  {
    RunConcat(st, a, b);
    RunConcat(st, a + b, c);
    RunConcat(st, a + b + c, d);
  }

  lemma StoreNew(st: State)
    requires st.current != "" && st.current !in st.files
    ensures Step(st, End) == st.(files := st.files[st.current := FileRecord(st.preamble, st.lines)], current := "")
  {
  }

  /** Reading one printed record stores it without its test names. */
  lemma RunRecord(st: State, file: string, r: FileRecord)
    requires st.current == "" && file != "" && file !in st.files
    ensures Run(st, RecordEntries(file, r)) == State(st.files[file := Clean(r)], "", Clean(r).preamble, r.lines)
  {
    var texts := WithoutTestNames(r.preamble);
    var found, hit := LinesFound(|r.lines|), LinesHit(|Covered(r.lines)|);
    var s1 := State(st.files, file, [], map[]);
    var s2 := State(st.files, file, texts, map[]);
    var s3 := State(st.files, file, texts, r.lines);
    RunOpening(st, file);
    RunPlains(s1, texts);
    assert [] + texts == texts;
    RunAllData(s2, r.lines);
    RunClosing(s3, found, hit);
    StoreNew(s3);
    RunFour(st, [TEST_NAME, Source(file)], Plains(texts), DataEntries(r.lines), [found, hit, End], s1, s2, s3);
  }

  function Select(files: Files, names: seq<string>): Files
    requires forall f :: f in names ==> f in files
  {
    map f | f in names :: Clean(files[f])
  }

  lemma SelectSnoc(files: Files, names: seq<string>, f: string)
    requires f in files && forall g :: g in names ==> g in files
    ensures Select(files, names + [f]) == Select(files, names)[f := Clean(files[f])]
  {
  }

  lemma {:induction false} RunFiles(names: seq<string>, files: Files)
    requires Distinct(names) && forall f :: f in names ==> f in files && f != ""
    ensures Run(Start, FilesEntries(names, files)).current == ""
    ensures Run(Start, FilesEntries(names, files)).files == Select(files, names)
  {
    if names == [] {
      assert Select(files, []) == map[];
    } else {
      var init, f := names[..|names| - 1], names[|names| - 1];
      assert names == init + [f] && f in names && f !in init;
      assert forall g :: g in init ==> g in names;
      RunFiles(init, files);
      RunConcat(Start, FilesEntries(init, files), RecordEntries(f, files[f]));
      RunRecord(Run(Start, FilesEntries(init, files)), f, files[f]);
      SelectSnoc(files, init, f);
    }
  }

  /** Reading the printed report gives the same files, up to test names. */
  lemma RunEntries(files: Files, leq: (string, string) -> bool)
    requires Total(leq) && "" !in files
    ensures Run(Start, Entries(files, leq)).current == ""
    ensures Run(Start, Entries(files, leq)).files == CleanFiles(files)
  {
    var names := Listing(files.Keys, leq);
    RunFiles(names, files);
    assert Select(files, names) == CleanFiles(files);
  }

  // ----- test names make no difference to the printer -----

  lemma {:induction false} CleanTwice(preamble: seq<string>)
    requires forall t :: t in preamble ==> !IsTestName(t)
    ensures WithoutTestNames(preamble) == preamble
  {
    if preamble != [] {
      var init, t := preamble[..|preamble| - 1], preamble[|preamble| - 1];
      assert preamble == init + [t];
      CleanTwice(init);
    }
  }

  lemma {:induction false} FilesEntriesClean(names: seq<string>, files: Files)
    requires forall f :: f in names ==> f in files
    ensures FilesEntries(names, CleanFiles(files)) == FilesEntries(names, files)
  {
    if names != [] {
      var f := names[|names| - 1];
      FilesEntriesClean(names[..|names| - 1], files);
      CleanTwice(WithoutTestNames(files[f].preamble));
      assert RecordEntries(f, Clean(files[f])) == RecordEntries(f, files[f]);
    }
  }

  lemma EntriesClean(files: Files, leq: (string, string) -> bool)
    requires Total(leq)
    ensures Entries(CleanFiles(files), leq) == Entries(files, leq)
  {
    assert CleanFiles(files).Keys == files.Keys;
    FilesEntriesClean(Listing(files.Keys, leq), files);
  }
}
