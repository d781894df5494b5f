/** The parser and the printer of coverage reports as they work, line by line. */
module LcovTool {
  import opened Text
  import opened Ordering
  import opened LcovFormat
  import opened LcovReport
  import opened LcovFile

  // ----- parsing -----

  /** Raises the hits of an existing record to those of another one for the same file. */
  method MergeLines(existing: map<nat, nat>, lines: map<nat, nat>) returns (merged: map<nat, nat>)
    ensures merged == MaxLines(existing, lines)
  {
    merged := existing;
    var rest := lines.Keys;
    while rest != {}
      invariant rest <= lines.Keys && merged.Keys == existing.Keys + (lines.Keys - rest)
      invariant forall n :: n in merged ==>
        merged[n] == if n in rest then HitsAt(existing, n) else Max(HitsAt(existing, n), HitsAt(lines, n))
      decreases rest
    {
      var n :| n in rest;
      merged := merged[n := Max(HitsAt(merged, n), lines[n])];
      rest := rest - {n};
    }
  }

  method StoreRecord(files0: Files, file: string, preamble: seq<string>, lines: map<nat, nat>) returns (files: Files)
    ensures files == Store(files0, file, preamble, lines)
  {
    if file in files0 {
      var existing := files0[file];
      var merged := MergeLines(existing.lines, lines);
      files := files0[file := FileRecord(existing.preamble, merged)];
    } else {
      files := files0[file := FileRecord(preamble, lines)];
    }
  }

  method ReadEntries(es: seq<Entry>) returns (files: Files)
    ensures files == Run(Start, es).files
  {
    files := map[];
    var currentFile, currentPreamble: seq<string>, currentLines: map<nat, nat> := "", [], map[];
    for i := 0 to |es|
      invariant State(files, currentFile, currentPreamble, currentLines) == Run(Start, es[..i])
    {
      assert es[..i + 1][..i] == es[..i];
      match es[i]
      case Source(file) =>
        currentFile, currentPreamble, currentLines := file, [], map[];
      case Data(n, h) =>
        if currentFile != "" {
          currentLines := Raise(currentLines, n, h);
        }
      case End =>
        if currentFile != "" {
          files := StoreRecord(files, currentFile, currentPreamble, currentLines);
          currentFile := "";
        }
      case Plain(text) =>
        if currentFile != "" {
          currentPreamble := currentPreamble + [text];
        }
      case _ =>
    }
    assert es[..|es|] == es;
  }

  method ParseLcov(content: string) returns (files: Files)
    requires WellFormed(content)
    ensures files == ParseText(content)
  {
    files := ReadEntries(EntriesOf(content));
  }

  // ----- printing -----

  lemma TextsConcat(a: seq<Entry>, b: seq<Entry>)
    ensures EntryTexts(a + b) == EntryTexts(a) + EntryTexts(b)
  {
  }

  method PrintPreamble(preamble: seq<string>) returns (output: seq<string>)
    ensures output == WithoutTestNames(preamble)
  {
    output := [];
    for i := 0 to |preamble|
      invariant output == WithoutTestNames(preamble[..i])
    {
      assert preamble[..i + 1][..i] == preamble[..i];
      if !IsTestName(preamble[i]) {
        output := output + [preamble[i]];
      }
    }
    assert preamble[..|preamble|] == preamble;
  }

  ghost function CoveredAmong(numbers: seq<nat>, lines: map<nat, nat>): set<nat>
    requires forall n :: n in numbers ==> n in lines
  {
    set n | n in numbers && lines[n] > 0
  }

  lemma CoveredSnoc(numbers: seq<nat>, lines: map<nat, nat>, n: nat)
    requires n in lines && n !in numbers && forall m :: m in numbers ==> m in lines
    ensures |CoveredAmong(numbers + [n], lines)| == |CoveredAmong(numbers, lines)| + if lines[n] > 0 then 1 else 0
  {
    var before := CoveredAmong(numbers, lines);
    assert CoveredAmong(numbers + [n], lines) == if lines[n] > 0 then before + {n} else before;
  }

  lemma ListingSize(numbers: seq<nat>, lines: map<nat, nat>)
    requires Distinct(numbers) && forall n :: n in numbers <==> n in lines
    ensures |numbers| == |lines|
    ensures CoveredAmong(numbers, lines) == Covered(lines)
  {
    SizeOfElements(numbers);
    assert Elements(numbers) == lines.Keys;
  }

  lemma DataSnoc(numbers: seq<nat>, lines: map<nat, nat>, n: nat)
    requires n in lines && forall m :: m in numbers ==> m in lines
    ensures EntryTexts(DataOf(numbers + [n], lines)) == EntryTexts(DataOf(numbers, lines)) + [EntryText(Data(n, lines[n]))]
  {
    assert DataOf(numbers + [n], lines) == DataOf(numbers, lines) + [Data(n, lines[n])];
    TextsConcat(DataOf(numbers, lines), [Data(n, lines[n])]);
  }

  lemma NumbersSnoc(numbers: seq<nat>, lines: map<nat, nat>, i: nat)
    requires i < |numbers| && Distinct(numbers) && forall n :: n in numbers ==> n in lines
    ensures EntryTexts(DataOf(numbers[..i + 1], lines)) ==
      EntryTexts(DataOf(numbers[..i], lines)) + [EntryText(Data(numbers[i], lines[numbers[i]]))]
    ensures |CoveredAmong(numbers[..i + 1], lines)| ==
      |CoveredAmong(numbers[..i], lines)| + if lines[numbers[i]] > 0 then 1 else 0
  {
    assert numbers[..i + 1] == numbers[..i] + [numbers[i]] && numbers[i] !in numbers[..i];
    CoveredSnoc(numbers[..i], lines, numbers[i]);
    DataSnoc(numbers[..i], lines, numbers[i]);
  }

  method PrintNumbers(numbers: seq<nat>, lines: map<nat, nat>)
    returns (output: seq<string>, linesFound: nat, linesHit: nat)
    requires Distinct(numbers) && forall n :: n in numbers ==> n in lines
    ensures output == EntryTexts(DataOf(numbers, lines))
    ensures linesFound == |numbers| && linesHit == |CoveredAmong(numbers, lines)|
  {
    output, linesFound, linesHit := [], 0, 0;
    for i := 0 to |numbers|
      invariant output == EntryTexts(DataOf(numbers[..i], lines))
      invariant linesFound == i && linesHit == |CoveredAmong(numbers[..i], lines)|
    {
      var n := numbers[i];
      NumbersSnoc(numbers, lines, i);
      output := output + [EntryText(Data(n, lines[n]))];
      linesFound := linesFound + 1;
      if lines[n] > 0 {
        linesHit := linesHit + 1;
      }
    }
    assert numbers[..|numbers|] == numbers;
  }

  /** Prints the hits in line order and counts lines and covered lines. */
  method PrintData(lines: map<nat, nat>) returns (output: seq<string>, linesFound: nat, linesHit: nat, ghost numbers: seq<nat>)
    ensures output == EntryTexts(DataEntries(lines))
    ensures PrintsAscending(output, lines, numbers)
    ensures linesFound == |lines| && linesHit == |Covered(lines)|
  {
    var sorted := SortedArray(lines.Keys, LineLeq);
    numbers := sorted;
    output, linesFound, linesHit := PrintNumbers(sorted, lines);
    ListingSize(sorted, lines);
    DataText(sorted, lines, output);
  }

  /** Every line once, in ascending order of its number, with its hits. */
  ghost predicate PrintsAscending(output: seq<string>, lines: map<nat, nat>, numbers: seq<nat>) {
    && |output| == |numbers| && (forall i, j :: 0 <= i < j < |numbers| ==> numbers[i] < numbers[j])
    && (forall n :: n in lines <==> n in numbers)
    && forall i :: 0 <= i < |numbers| ==> output[i] == "DA:" + Decimal(numbers[i]) + "," + Decimal(lines[numbers[i]])
  }

  lemma DataText(numbers: seq<nat>, lines: map<nat, nat>, output: seq<string>)
    requires Distinct(numbers) && Sorted(numbers, LineLeq) && (forall n :: n in numbers <==> n in lines)
    requires output == EntryTexts(DataOf(numbers, lines))
    ensures PrintsAscending(output, lines, numbers)
  {
    forall i | 0 <= i < |numbers| ensures output[i] == "DA:" + Decimal(numbers[i]) + "," + Decimal(lines[numbers[i]]) {
      DataLine(numbers[i], lines[numbers[i]], output[i]);
    }
    NumbersAscend(numbers);
  }

  lemma DataLine(n: nat, h: nat, text: string)
    requires text == EntryText(Data(n, h))
    ensures text == "DA:" + Decimal(n) + "," + Decimal(h)
  {
    assert "DA:" + (Decimal(n) + [','] + Decimal(h)) == "DA:" + Decimal(n) + "," + Decimal(h);
  }

  lemma NumbersAscend(numbers: seq<nat>)
    requires Distinct(numbers) && Sorted(numbers, LineLeq)
    ensures forall i, j :: 0 <= i < j < |numbers| ==> numbers[i] < numbers[j]
  {
    forall i, j | 0 <= i < j < |numbers| ensures numbers[i] < numbers[j] {
      assert LineLeq(numbers[i], numbers[j]) && numbers[i] != numbers[j];
    }
  }

  lemma TextsOfPlains(texts: seq<string>)
    ensures EntryTexts(Plains(texts)) == texts
  {
  }

  lemma FourTexts(a: seq<Entry>, b: seq<Entry>, c: seq<Entry>, d: seq<Entry>)
    ensures EntryTexts(a + b + c + d) == EntryTexts(a) + EntryTexts(b) + EntryTexts(c) + EntryTexts(d)
  {
    TextsConcat(a, b);
    TextsConcat(a + b, c);
    TextsConcat(a + b + c, d);
  }

  lemma TextsOfThree(a: Entry, b: Entry, c: Entry)
    ensures EntryTexts([a, b]) == [EntryText(a), EntryText(b)]
    ensures EntryTexts([a, b, c]) == [EntryText(a), EntryText(b), EntryText(c)]
  {
  }

  lemma RecordTexts(file: string, r: FileRecord, found: Entry, hit: Entry)
    requires found == LinesFound(|r.lines|) && hit == LinesHit(|Covered(r.lines)|)
    ensures EntryTexts(RecordEntries(file, r)) ==
      [EntryText(TEST_NAME), EntryText(Source(file))] + WithoutTestNames(r.preamble) + EntryTexts(DataEntries(r.lines)) +
      [EntryText(found), EntryText(hit), EntryText(End)]
  {
    FourTexts([TEST_NAME, Source(file)], Plains(WithoutTestNames(r.preamble)), DataEntries(r.lines), [found, hit, End]);
    TextsOfThree(TEST_NAME, Source(file), End);
    TextsOfThree(found, hit, End);
    TextsOfPlains(WithoutTestNames(r.preamble));
  }

  /** The lines of a printed record; `data` are its hits. */
  ghost predicate IsRecordText(output: seq<string>, file: string, r: FileRecord, data: seq<string>) {
    output ==
      ["TN:", "SF:" + file] + WithoutTestNames(r.preamble) + data +
      ["LF:" + Decimal(|r.lines|), "LH:" + Decimal(|Covered(r.lines)|), "end_of_record"]
  }

  lemma FixedTexts(file: string, found: nat, hit: nat)
    ensures EntryText(TEST_NAME) == "TN:" && EntryText(Source(file)) == "SF:" + file && EntryText(End) == "end_of_record"
    ensures EntryText(LinesFound(found)) == "LF:" + Decimal(found) && EntryText(LinesHit(hit)) == "LH:" + Decimal(hit)
  {
  }

  method PrintRecord(file: string, r: FileRecord) returns (output: seq<string>, ghost data: seq<string>, ghost numbers: seq<nat>)
    ensures output == EntryTexts(RecordEntries(file, r))
    ensures IsRecordText(output, file, r, data) && PrintsAscending(data, r.lines, numbers)
  {
    output := [EntryText(TEST_NAME), EntryText(Source(file))];
    var kept := PrintPreamble(r.preamble);
    output := output + kept;
    var lines, linesFound, linesHit;
    lines, linesFound, linesHit, numbers := PrintData(r.lines);
    data := lines;
    output := output + lines;
    var found, hit := LinesFound(linesFound), LinesHit(linesHit);
    output := output + [EntryText(found), EntryText(hit), EntryText(End)];
    RecordTexts(file, r, found, hit);
    FixedTexts(file, linesFound, linesHit);
  }

  lemma FilesSnoc(names: seq<string>, files: Files, i: nat)
    requires i < |names| && forall f :: f in names ==> f in files
    ensures EntryTexts(FilesEntries(names[..i + 1], files)) ==
      EntryTexts(FilesEntries(names[..i], files)) + EntryTexts(RecordEntries(names[i], files[names[i]]))
  {
    assert names[..i + 1][..i] == names[..i];
    TextsConcat(FilesEntries(names[..i], files), RecordEntries(names[i], files[names[i]]));
  }

  /** Files in the given order of names, each with its lines in ascending order and its totals. */
  method ToLcovString(files: Files, leq: (string, string) -> bool) returns (text: string)
    requires Total(leq)
    ensures text == PrintText(files, leq)
  {
    var names := SortedArray(files.Keys, leq);
    var output: seq<string> := [];
    for i := 0 to |names|
      invariant output == EntryTexts(FilesEntries(names[..i], files))
    {
      var record, _, _ := PrintRecord(names[i], files[names[i]]);
      FilesSnoc(names, files, i);
      output := output + record;
    }
    assert names[..|names|] == names;
    text := Join(output, '\n') + "\n";
  }
}
