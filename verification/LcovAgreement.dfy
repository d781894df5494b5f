/**
 When the two parsers of coverage reports agree. The full parser takes line-wise maxima over all
 records of a file, the parser of Anvil's report keeps the last one.
 */
module LcovAgreement {
  import opened LcovFormat
  import opened LcovReport
  import opened LcovFile
  import opened LcovMerge
  import opened LcovMergeTool
  import opened Text

  /** The hits of the records that are closed for a file, in order. */
  function RecordsOf(es: seq<Entry>, file: string): seq<map<nat, nat>> {
    if es == [] then []
    else
      var st, e := Run(Start, es[..|es| - 1]), es[|es| - 1];
      RecordsOf(es[..|es| - 1], file) + if e.End? && st.current == file && file != "" then [st.lines] else []
  }

  function MaxOf(records: seq<map<nat, nat>>): map<nat, nat> {
    if records == [] then map[] else MaxLines(MaxOf(records[..|records| - 1]), records[|records| - 1])
  }

  lemma MaxOfSnoc(records: seq<map<nat, nat>>, lines: map<nat, nat>)
    ensures MaxOf(records + [lines]) == MaxLines(MaxOf(records), lines)
  {
    assert (records + [lines])[..|records|] == records;
  }

  lemma MaxWithNothing(lines: map<nat, nat>)
    ensures MaxLines(map[], lines) == lines
  {
  }

  // ----- what the parsers store, in terms of the records -----

  ghost predicate StoresMax(files: Files, records: seq<map<nat, nat>>, file: string) {
    && (file in files <==> records != [])
    && (file in files ==> files[file].lines == MaxOf(records))
  }

  lemma StoreMax(files: Files, records: seq<map<nat, nat>>, file: string, current: string, preamble: seq<string>, lines: map<nat, nat>)
    requires StoresMax(files, records, file)
    ensures StoresMax(Store(files, current, preamble, lines), if current == file then records + [lines] else records, file)
  {
    MaxOfSnoc(records, lines);
    MaxWithNothing(lines);
  }

  lemma FullParserStep(es: seq<Entry>, e: Entry, file: string)
    requires StoresMax(Run(Start, es).files, RecordsOf(es, file), file)
    ensures StoresMax(Run(Start, es + [e]).files, RecordsOf(es + [e], file), file)
  {
    var st, records := Run(Start, es), RecordsOf(es, file);
    RunSnoc(Start, es, e);
    RecordsStep(es, e, file);
    StoreMax(st.files, records, file, st.current, st.preamble, st.lines);
    assert records + [] == records;
  }

  lemma {:induction false} FullParserStoresMax(es: seq<Entry>, file: string)
    ensures StoresMax(Run(Start, es).files, RecordsOf(es, file), file)
  {
    if es != [] {
      var init, e := es[..|es| - 1], es[|es| - 1];
      assert es == init + [e];
      FullParserStoresMax(init, file);
      FullParserStep(init, e, file);
    }
  }

  ghost predicate StoresLast(files: Anvil, records: seq<map<nat, nat>>, file: string) {
    && (file in files <==> records != [])
    && (file in files ==> files[file].lines == records[|records| - 1])
  }

  lemma AnvilParserStep(es: seq<Entry>, e: Entry, file: string)
    requires StoresLast(AnvilRun(es).files, RecordsOf(es, file), file) && Agree(AnvilRun(es), Run(Start, es))
    ensures StoresLast(AnvilRun(es + [e]).files, RecordsOf(es + [e], file), file)
  {
    assert (es + [e])[..|es|] == es;
    RecordsStep(es, e, file);
    assert RecordsOf(es, file) + [] == RecordsOf(es, file);
  }

  lemma {:induction false} AnvilParserStoresLast(es: seq<Entry>, file: string)
    ensures StoresLast(AnvilRun(es).files, RecordsOf(es, file), file)
  {
    if es != [] {
      var init, e := es[..|es| - 1], es[|es| - 1];
      assert es == init + [e];
      AnvilParserStoresLast(init, file);
      RunsAgree(init);
      AnvilParserStep(init, e, file);
    }
  }

  // ----- agreement -----

  /** The last record has at least the hits of every other record, line by line. */
  ghost predicate LastDominates(records: seq<map<nat, nat>>) {
    records != [] && forall i :: 0 <= i < |records| ==> Within(records[i], records[|records| - 1])
  }

  lemma MaxIsSecond(a: map<nat, nat>, b: map<nat, nat>)
    ensures MaxLines(a, b) == b <==> Within(a, b)
  {
    if MaxLines(a, b) == b {
      forall n | n in a ensures n in b && a[n] <= b[n] {
        assert n in MaxLines(a, b);
      }
    }
  }

  lemma MaxWithin(a: map<nat, nat>, b: map<nat, nat>, c: map<nat, nat>)
    ensures Within(MaxLines(a, b), c) <==> Within(a, c) && Within(b, c)
  {
    if Within(MaxLines(a, b), c) {
      forall n | n in a ensures n in c && a[n] <= c[n] { assert n in MaxLines(a, b); }
      forall n | n in b ensures n in c && b[n] <= c[n] { assert n in MaxLines(a, b); }
    }
  }

  lemma {:induction false} MaxOfWithin(records: seq<map<nat, nat>>, c: map<nat, nat>)
    ensures Within(MaxOf(records), c) <==> forall i :: 0 <= i < |records| ==> Within(records[i], c)
  {
    if records != [] {
      var init, last := records[..|records| - 1], records[|records| - 1];
      MaxOfWithin(init, c);
      MaxWithin(MaxOf(init), last, c);
      assert forall i :: 0 <= i < |init| ==> init[i] == records[i];
    }
  }

  lemma DominatesInit(records: seq<map<nat, nat>>, init: seq<map<nat, nat>>, last: map<nat, nat>)
    requires records == init + [last]
    ensures LastDominates(records) <==> forall i :: 0 <= i < |init| ==> Within(init[i], last)
  {
    assert forall i :: 0 <= i < |init| ==> records[i] == init[i];
    assert records[|init|] == last && Within(last, last);
  }

  lemma MaxOfIsLast(records: seq<map<nat, nat>>)
    requires records != []
    ensures MaxOf(records) == records[|records| - 1] <==> LastDominates(records)
  {
    var init, last := records[..|records| - 1], records[|records| - 1];
    assert records == init + [last];
    DominatesInit(records, init, last);
    MaxOfWithin(init, last);
    MaxIsSecond(MaxOf(init), last);
  }

  /** For every report and file: both parsers agree on the hits if and only if the last record dominates. */
  lemma ParsersAgreeIff(content: string, file: string)
    requires file in ParseText(content)
    ensures file in AnvilText(content)
    ensures AnvilText(content)[file].lines == ParseText(content)[file].lines <==> LastDominates(RecordsOf(EntriesOf(content), file))
  {
    FullParserStoresMax(EntriesOf(content), file);
    AnvilParserStoresLast(EntriesOf(content), file);
    MaxOfIsLast(RecordsOf(EntriesOf(content), file));
  }

  /** In particular they agree on a file that is closed only once. */
  lemma ParsersAgreeOnSingleRecords(content: string, file: string)
    requires |RecordsOf(EntriesOf(content), file)| == 1
    ensures file in ParseText(content) && file in AnvilText(content)
    ensures AnvilText(content)[file].lines == ParseText(content)[file].lines
  {
    FullParserStoresMax(EntriesOf(content), file);
    SingleDominates(RecordsOf(EntriesOf(content), file));
    ParsersAgreeIff(content, file);
  }

  lemma SingleDominates(records: seq<map<nat, nat>>)
    requires |records| == 1
    ensures LastDominates(records)
  {
    assert Within(records[0], records[0]);
  }

  // ----- a report on which hits are lost -----

  ghost function TwoRecords(file: string, n: nat, h: nat, h': nat): seq<Entry> {
    [Source(file), Data(n, h), End, Source(file), Data(n, h'), End]
  }

  lemma RecordsStep(es: seq<Entry>, e: Entry, file: string)
    ensures RecordsOf(es + [e], file) ==
      RecordsOf(es, file) + if e.End? && Run(Start, es).current == file && file != "" then [Run(Start, es).lines] else []
  {
    assert (es + [e])[..|es|] == es;
  }

  /** Reading one record of one line. */
  lemma OneRecord(es: seq<Entry>, file: string, n: nat, h: nat)
    requires file != ""
    ensures RecordsOf(es + [Source(file), Data(n, h), End], file) == RecordsOf(es, file) + [map[n := h]]
  {
    var a := es + [Source(file)];
    var b := a + [Data(n, h)];
    RunSnoc(Start, es, Source(file));
    RunSnoc(Start, a, Data(n, h));
    assert Raise(map[], n, h) == map[n := h];
    assert Run(Start, b).current == file && Run(Start, b).lines == map[n := h];
    RecordsStep(es, Source(file), file);
    RecordsStep(a, Data(n, h), file);
    assert RecordsOf(es, file) + [] == RecordsOf(es, file) == RecordsOf(b, file);
    RecordsStep(b, End, file);
    assert es + [Source(file), Data(n, h), End] == b + [End];
  }

  lemma BlankRecordsNothing(es: seq<Entry>, file: string)
    ensures RecordsOf(es + [Blank("")], file) == RecordsOf(es, file)
  {
    RecordsStep(es, Blank(""), file);
    assert RecordsOf(es, file) + [] == RecordsOf(es, file);
  }

  lemma {:induction false} BlanksRecordNothing(es: seq<Entry>, blanks: seq<Entry>, file: string)
    requires forall i :: 0 <= i < |blanks| ==> blanks[i] == Blank("")
    ensures RecordsOf(es + blanks, file) == RecordsOf(es, file)
  {
    if blanks == [] {
      assert es + blanks == es;
    } else {
      var init := blanks[..|blanks| - 1];
      BlanksRecordNothing(es, init, file);
      BlankRecordsNothing(es + init, file);
      assert es + blanks == (es + init) + [Blank("")];
    }
  }

  lemma TwoRecordsReadable(file: string, n: nat, h: nat, h': nat)
    requires '\n' !in file
    ensures All(TwoRecords(file, n, h, h'), Readability())
  {
    SourceReadable(file);
    DataReadable(n, h);
    DataReadable(n, h');
    EndReadable();
  }

  /** The same file twice, the second time with fewer hits: only the full parser keeps the larger count. */
  lemma HitsLost(file: string, n: nat, h: nat, h': nat, content: string)
    requires file != "" && '\n' !in file && h' < h
    requires content == Join(EntryTexts(TwoRecords(file, n, h, h')), '\n') + "\n"
    ensures file in ParseText(content) && ParseText(content)[file].lines == map[n := h]
    ensures file in AnvilText(content) && AnvilText(content)[file].lines == map[n := h']
  {
    var es, read := TwoRecords(file, n, h, h'), EntriesOf(content);
    TwoRecordsReadable(file, n, h, h');
    ClassifyTexts(es);
    SplitLines(EntryTexts(es));
    ClassifyPadded(EntryTexts(es), Split(content, '\n'));
    assert read == es + read[|es|..];
    BlanksRecordNothing(es, read[|es|..], file);
    RecordsOfTwo(file, n, h, h');
    FullParserStoresMax(read, file);
    AnvilParserStoresLast(read, file);
    MaxOfTwo(n, h, h');
  }

  lemma RecordsOfTwo(file: string, n: nat, h: nat, h': nat)
    requires file != ""
    ensures RecordsOf(TwoRecords(file, n, h, h'), file) == [map[n := h], map[n := h']]
  {
    var first := [Source(file), Data(n, h), End];
    OneRecord([], file, n, h);
    OneRecord(first, file, n, h');
    assert [] + first == first;
    assert TwoRecords(file, n, h, h') == first + [Source(file), Data(n, h'), End];
  }

  lemma MaxOfTwo(n: nat, h: nat, h': nat)
    requires h' < h
    ensures MaxOf([map[n := h], map[n := h']]) == map[n := h]
  {
    MaxOfSnoc([], map[n := h]);
    MaxOfSnoc([map[n := h]], map[n := h']);
    MaxWithNothing(map[n := h]);
    assert [] + [map[n := h]] == [map[n := h]] && [map[n := h]] + [map[n := h']] == [map[n := h], map[n := h']];
  }
}
