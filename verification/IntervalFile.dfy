/**
 Writing the derived intervals into the permanent-values file: everything from the first line of
 the section on is replaced.
 */
module IntervalFile {
  import opened Wrappers
  import opened Text
  import opened Ordering
  import opened MigrationWalk

  const INLINE_KEY := "chain_intervals"
  const TABLE_HEADER := "[[legacy_gateway.chain_intervals]]"

  predicate OpensSection(line: string) {
    StartsWith(line, INLINE_KEY) || StartsWith(line, TABLE_HEADER)
  }

  /** Index of the first line that opens the section, or the number of lines. */
  function Cutoff(lines: seq<string>): (i: nat)
    ensures i <= |lines|
    ensures i < |lines| ==> OpensSection(lines[i])
    ensures forall k :: 0 <= k < i ==> !OpensSection(lines[k])
  {
    if lines == [] || OpensSection(lines[0]) then 0 else 1 + Cutoff(lines[1..])
  }

  function Base(raw: string): string {
    var lines := Split(raw, '\n');
    var cut := Cutoff(lines);
    TrimEnd(if cut == |lines| then raw else Join(lines[..cut], '\n'))
  }

  function SerializedLines(i: Interval): seq<string> {
    [TABLE_HEADER,
     "chain_id = " + Decimal(i.chainId),
     "migrate_to_sl_batch = " + Decimal(i.migrateToGWBatchNumber),
     "migrate_from_sl_batch = " + Decimal(i.migrateFromGWBatchNumber),
     "sl_batch_lower_bound = " + Decimal(i.slBatchLowerBound),
     "sl_batch_upper_bound = " + Decimal(i.slBatchUpperBound)]
  }

  function SerializeInterval(i: Interval): string {
    Join(SerializedLines(i), '\n')
  }

  function Serialized(intervals: seq<Interval>): string {
    Join(Apply(intervals, SerializeInterval), '\n')
  }

  lemma SerializedCons(intervals: seq<Interval>)
    requires intervals != []
    ensures Serialized(intervals) ==
      if |intervals| == 1 then SerializeInterval(intervals[0])
      else SerializeInterval(intervals[0]) + ['\n'] + Serialized(intervals[1..])
  {
    assert Apply(intervals, SerializeInterval)[1..] == Apply(intervals[1..], SerializeInterval);
  }

  function IntervalContent(intervals: seq<Interval>): string {
    if intervals == [] then "chain_intervals = []" else Serialized(intervals)
  }

  /** The file after writing `intervals`. */
  function Rewrite(raw: string, intervals: seq<Interval>): string {
    Base(raw) + "\n\n" + IntervalContent(intervals) + "\n"
  }

  // ----- the part in front of the section stays -----

  ghost predicate NoSection(lines: seq<string>) {
    forall k :: 0 <= k < |lines| ==> !OpensSection(lines[k])
  }

  /** The lines of a prefix are lines of the text, the last one possibly cut short. */
  lemma {:induction false} PrefixLines(s: string, t: string, sep: char)
    requires s <= t
    ensures LinewisePrefix(Split(s, sep), Split(t, sep))
  {
    if s == "" {
      assert Split(s, sep) == [""];
    } else {
      PrefixLines(s[1..], t[1..], sep);
      PrefixCons(s[0], Split(s[1..], sep), Split(t[1..], sep));
    }
  }

  /** Every line of `a` is a prefix of the same line of `b`. */
  ghost predicate LinewisePrefix(a: seq<string>, b: seq<string>) {
    |a| <= |b| && forall k :: 0 <= k < |a| ==> a[k] <= b[k]
  }

  lemma PrefixCons(c: char, a: seq<string>, b: seq<string>)
    requires a != [] && LinewisePrefix(a, b)
    ensures LinewisePrefix([""] + a, [""] + b)
    ensures LinewisePrefix([[c] + a[0]] + a[1..], [[c] + b[0]] + b[1..])
  {
    assert [c] + a[0] <= [c] + b[0];
    var x, y := [[c] + a[0]] + a[1..], [[c] + b[0]] + b[1..];
    forall k | 0 <= k < |x| ensures x[k] <= y[k] {
      if k > 0 {
        assert x[k] == a[k] && y[k] == b[k];
      }
    }
    var x', y' := [""] + a, [""] + b;
    forall k | 0 <= k < |x'| ensures x'[k] <= y'[k] {
      if k > 0 {
        assert x'[k] == a[k - 1] && y'[k] == b[k - 1];
      }
    }
  }

  lemma PrefixNoSection(s: string, t: string)
    requires s <= t && NoSection(Split(t, '\n'))
    ensures NoSection(Split(s, '\n'))
  {
    PrefixLines(s, t, '\n');
    forall k | 0 <= k < |Split(s, '\n')| ensures !OpensSection(Split(s, '\n')[k]) {
      var a, b := Split(s, '\n')[k], Split(t, '\n')[k];
      assert StartsWith(a, INLINE_KEY) ==> StartsWith(b, INLINE_KEY);
      assert StartsWith(a, TABLE_HEADER) ==> StartsWith(b, TABLE_HEADER);
      assert !OpensSection(b);
    }
  }

  lemma BaseHasNoSection(raw: string)
    ensures NoSection(Split(Base(raw), '\n'))
  {
    var lines := Split(raw, '\n');
    var cut := Cutoff(lines);
    var kept := if cut == |lines| then raw else Join(lines[..cut], '\n');
    if cut == |lines| {
      assert NoSection(lines);
    } else if cut == 0 {
      assert Split(kept, '\n') == [""];
    } else {
      SplitJoin(lines[..cut], '\n');
    }
    PrefixNoSection(Base(raw), kept);
  }

  lemma {:induction false} TrimEndSpace(s: string, c: char)
    requires IsSpace(c)
    ensures TrimEnd(s + [c]) == TrimEnd(s)
  {
    assert (s + [c])[..|s|] == s;
  }

  lemma {:induction false} TrimEndTwice(s: string)
    ensures TrimEnd(TrimEnd(s)) == TrimEnd(s)
  {
  }

  lemma {:induction false} CutoffAt(a: seq<string>, b: seq<string>)
    requires NoSection(a) && b != [] && OpensSection(b[0])
    ensures Cutoff(a + b) == |a|
  {
    var i := Cutoff(a + b);
    assert (a + b)[|a|] == b[0];
    assert forall k :: 0 <= k < |a| ==> (a + b)[k] == a[k];
  }

  /** The first line of a text starts with whatever the text starts with. */
  lemma {:induction false} FirstLineStarts(s: string, prefix: string, sep: char)
    requires StartsWith(s, prefix) && sep !in prefix
    ensures StartsWith(Split(s, sep)[0], prefix)
  {
    if prefix != "" {
      assert s[0] == prefix[0] && prefix[0] in prefix;
      assert s[1..][..|prefix| - 1] == prefix[1..];
      assert forall c :: c in prefix[1..] ==> c in prefix;
      FirstLineStarts(s[1..], prefix[1..], sep);
      var first := Split(s[1..], sep)[0];
      assert ([s[0]] + first)[..|prefix|] == [s[0]] + first[..|prefix| - 1];
      assert prefix == [prefix[0]] + prefix[1..];
    }
  }

  lemma FirstTableOpens(i: Interval, text: string)
    requires SerializeInterval(i) <= text
    ensures StartsWith(text, TABLE_HEADER)
  {
    var first := SerializeInterval(i);
    assert first == TABLE_HEADER + "\n" + Join(SerializedLines(i)[1..], '\n');
    assert first[..|TABLE_HEADER|] == TABLE_HEADER;
    assert text[..|TABLE_HEADER|] == first[..|TABLE_HEADER|];
  }

  lemma EmptyContentOpens()
    ensures StartsWith("chain_intervals = []\n", INLINE_KEY)
  {
    assert "chain_intervals = []\n"[..15] == "chain_intervals";
  }

  lemma TablesOpen(intervals: seq<Interval>)
    requires intervals != []
    ensures StartsWith(Serialized(intervals) + "\n", TABLE_HEADER)
  {
    SerializedCons(intervals);
    FirstTableOpens(intervals[0], Serialized(intervals) + "\n");
  }

  lemma ContentOpens(intervals: seq<Interval>)
    ensures OpensSection(Split(IntervalContent(intervals) + "\n", '\n')[0])
  {
    var text := IntervalContent(intervals) + "\n";
    if intervals == [] {
      EmptyContentOpens();
      assert text == "chain_intervals = []\n";
      FirstLineStarts(text, INLINE_KEY, '\n');
    } else {
      TablesOpen(intervals);
      FirstLineStarts(text, TABLE_HEADER, '\n');
    }
  }

  lemma BlankLineBetween(base: string, content: string)
    ensures Split(base + "\n\n" + content, '\n') == (Split(base, '\n') + [""]) + Split(content, '\n')
  {
    assert base + "\n\n" + content == base + ['\n'] + ("" + ['\n'] + content);
    SplitConcat(base, "" + ['\n'] + content, '\n');
    SplitConcat("", content, '\n');
    assert Split("", '\n') == [""];
    assert Split(base, '\n') + ([""] + Split(content, '\n')) == (Split(base, '\n') + [""]) + Split(content, '\n');
  }

  lemma RewriteLines(raw: string, intervals: seq<Interval>)
    ensures Split(Rewrite(raw, intervals), '\n') ==
      (Split(Base(raw), '\n') + [""]) + Split(IntervalContent(intervals) + "\n", '\n')
    ensures Cutoff(Split(Rewrite(raw, intervals), '\n')) == |Split(Base(raw), '\n')| + 1
  {
    var base, content := Base(raw), IntervalContent(intervals) + "\n";
    assert Rewrite(raw, intervals) == base + "\n\n" + content;
    BlankLineBetween(base, content);
    BaseHasNoSection(raw);
    ContentOpens(intervals);
    CutoffAt(Split(base, '\n') + [""], Split(content, '\n'));
  }

  lemma BaseIsTrimmed(raw: string)
    ensures TrimEnd(Base(raw)) == Base(raw)
  {
    var lines := Split(raw, '\n');
    var cut := Cutoff(lines);
    TrimEndTwice(if cut == |lines| then raw else Join(lines[..cut], '\n'));
  }

  lemma JoinWithBlank(base: string)
    ensures Join(Split(base, '\n') + [""], '\n') == base + ['\n']
  {
    JoinConcat(Split(base, '\n'), [""], '\n');
    JoinSplit(base, '\n');
    assert base + ['\n'] + "" == base + ['\n'];
  }

  /** Rewriting keeps what stands in front of the section. */
  lemma BaseOfRewrite(raw: string, intervals: seq<Interval>)
    ensures Base(Rewrite(raw, intervals)) == Base(raw)
  {
    var base := Base(raw);
    var lines, head := Split(Rewrite(raw, intervals), '\n'), Split(base, '\n') + [""];
    RewriteLines(raw, intervals);
    assert lines[..|head|] == head;
    JoinWithBlank(base);
    TrimEndSpace(base, '\n');
    BaseIsTrimmed(raw);
  }

  /** The last write wins, for every file; in particular writing twice is writing once. */
  lemma LastWriteWins(raw: string, first: seq<Interval>, second: seq<Interval>)
    ensures Rewrite(Rewrite(raw, first), second) == Rewrite(raw, second)
  {
    BaseOfRewrite(raw, first);
  }

  // ----- which lines survive -----

  /** Line `k` without trailing white space; beyond the end there are only empty lines. */
  function LineAt(lines: seq<string>, k: nat): string {
    if k < |lines| then TrimEnd(lines[k]) else ""
  }

  /** `lines` with `c` appended to the last line. */
  function AppendLast(lines: seq<string>, c: char): seq<string>
    requires lines != []
  {
    lines[..|lines| - 1] + [lines[|lines| - 1] + [c]]
  }

  lemma AppendLastCons(line: string, lines: seq<string>, c: char)
    requires lines != []
    ensures AppendLast([line] + lines, c) == [line] + AppendLast(lines, c)
  {
    var all := [line] + lines;
    assert all[..|all| - 1] == [line] + lines[..|lines| - 1] && all[|all| - 1] == lines[|lines| - 1];
  }

  lemma {:induction false} SplitSnoc(s: string, c: char, sep: char)
    requires c != sep
    ensures Split(s + [c], sep) == AppendLast(Split(s, sep), c)
  {
    if s == "" {
      assert s + [c] == [c];
      SplitFirst([c], "", sep);
      assert AppendLast([""], c) == [[c]];
    } else {
      var rest, rest' := Split(s[1..], sep), Split(s[1..] + [c], sep);
      assert (s + [c])[0] == s[0] && (s + [c])[1..] == s[1..] + [c];
      SplitSnoc(s[1..], c, sep);
      if s[0] == sep {
        AppendLastCons("", rest, c);
      } else if |rest| == 1 {
        assert rest' == [rest[0] + [c]];
        assert [s[0]] + (rest[0] + [c]) == ([s[0]] + rest[0]) + [c];
        assert Split(s, sep) == [[s[0]] + rest[0]];
        assert Split(s + [c], sep) == [[s[0]] + rest'[0]];
      } else {
        var tail := AppendLast(rest[1..], c);
        assert rest == [rest[0]] + rest[1..];
        AppendLastCons(rest[0], rest[1..], c);
        assert rest' == [rest[0]] + tail;
        assert Split(s + [c], sep) == [[s[0]] + rest[0]] + tail;
        AppendLastCons([s[0]] + rest[0], rest[1..], c);
      }
    }
  }

  lemma AppendedLine(lines: seq<string>, c: char, k: nat)
    requires lines != [] && IsSpace(c)
    ensures LineAt(AppendLast(lines, c), k) == LineAt(lines, k)
  {
    if k == |lines| - 1 {
      TrimEndSpace(lines[k], c);
    }
  }

  lemma AppendedBlank(lines: seq<string>, k: nat)
    ensures LineAt(lines + [""], k) == LineAt(lines, k)
  {
  }

  /** Dropping one trailing space, or one line break, changes no line but for trailing white space. */
  lemma SpaceChangesNoLine(s: string, c: char, k: nat)
    requires IsSpace(c)
    ensures LineAt(Split(s + [c], '\n'), k) == LineAt(Split(s, '\n'), k)
  {
    if c == '\n' {
      assert s + [c] == s + ['\n'] + "";
      SplitConcat(s, "", '\n');
      AppendedBlank(Split(s, '\n'), k);
    } else {
      SplitSnoc(s, c, '\n');
      AppendedLine(Split(s, '\n'), c, k);
    }
  }

  lemma {:induction false} TrimChangesNoLine(s: string, k: nat)
    ensures LineAt(Split(TrimEnd(s), '\n'), k) == LineAt(Split(s, '\n'), k)
  {
    if s != "" && IsSpace(s[|s| - 1]) {
      var init, c := s[..|s| - 1], s[|s| - 1];
      assert s == init + [c];
      TrimChangesNoLine(init, k);
      SpaceChangesNoLine(init, c, k);
    }
  }

  lemma BaseLine(raw: string, k: nat)
    ensures var lines := Split(raw, '\n');
      LineAt(Split(Base(raw), '\n'), k) == if k < Cutoff(lines) then TrimEnd(lines[k]) else ""
  {
    var lines := Split(raw, '\n');
    var cut := Cutoff(lines);
    if cut == |lines| {
      TrimChangesNoLine(raw, k);
    } else {
      TrimChangesNoLine(Join(lines[..cut], '\n'), k);
      if cut > 0 {
        SplitJoin(lines[..cut], '\n');
      }
    }
  }

  /** What a rewritten file holds in front of the section. */
  function Head(text: string): seq<string> {
    var lines := Split(text, '\n');
    lines[..Cutoff(lines)]
  }

  lemma HeadOfRewrite(raw: string, intervals: seq<Interval>)
    ensures Head(Rewrite(raw, intervals)) == Split(Base(raw), '\n') + [""]
  {
    RewriteLines(raw, intervals);
  }

  lemma BeforeCutoff(lines: seq<string>, k: nat)
    requires k < |lines|
    ensures k < Cutoff(lines) <==> forall j :: 0 <= j <= k ==> !OpensSection(lines[j])
  {
  }

  /**
   For every file and every line of it that is not blank: the line is still in its place in front
   of the section, up to trailing white space, if and only if neither it nor a line before it opens
   the section.
   */
  lemma LineSurvivesIff(raw: string, intervals: seq<Interval>, k: nat)
    requires k < |Split(raw, '\n')| && TrimEnd(Split(raw, '\n')[k]) != ""
    ensures LineAt(Head(Rewrite(raw, intervals)), k) == TrimEnd(Split(raw, '\n')[k]) <==>
      forall j :: 0 <= j <= k ==> !OpensSection(Split(raw, '\n')[j])
  {
    HeadOfRewrite(raw, intervals);
    AppendedBlank(Split(Base(raw), '\n'), k);
    BaseLine(raw, k);
    BeforeCutoff(Split(raw, '\n'), k);
  }

  /** A commented-out line never opens the section. */
  lemma CommentOpensNothing(line: string)
    requires line != "" && line[0] == '#'
    ensures !OpensSection(line)
  {
    assert INLINE_KEY[0] == 'c' && TABLE_HEADER[0] == '[';
  }

  /**
   So in every file a commented-out placeholder in front of the section is kept, although the
   comment above `write` says otherwise.
   */
  lemma PlaceholderSurvives(raw: string, intervals: seq<Interval>, k: nat)
    requires k < |Split(raw, '\n')| && Split(raw, '\n')[k] != "" && Split(raw, '\n')[k][0] == '#'
    requires forall j :: 0 <= j < k ==> !OpensSection(Split(raw, '\n')[j])
    ensures LineAt(Head(Rewrite(raw, intervals)), k) == TrimEnd(Split(raw, '\n')[k]) != ""
  {
    var line := Split(raw, '\n')[k];
    CommentOpensNothing(line);
    TrimKeepsFirst(line);
    LineSurvivesIff(raw, intervals, k);
  }

  lemma {:induction false} TrimKeepsFirst(s: string)
    requires s != "" && !IsSpace(s[0])
    ensures TrimEnd(s) != ""
  {
    if |s| > 1 {
      TrimKeepsFirst(s[..|s| - 1]);
    }
  }

  // ----- reading the section back -----

  /** The number behind `key = ` on a line. */
  function Entry(line: string, key: string): Option<nat> {
    if StartsWith(line, key) && |line| > |key| && AllDigits(line[|key|..]) then Some(DecimalValue(line[|key|..])) else None
  }

  lemma EntryOfPrinted(key: string, n: nat)
    ensures Entry(key + Decimal(n), key) == Some(n)
  {
    assert (key + Decimal(n))[|key|..] == Decimal(n);
    DecimalRoundTrip(n);
  }

  function ReadOne(lines: seq<string>): Option<Interval>
    requires |lines| >= 6
  {
    var a := Entry(lines[1], "chain_id = ");
    var b := Entry(lines[2], "migrate_to_sl_batch = ");
    var c := Entry(lines[3], "migrate_from_sl_batch = ");
    var d := Entry(lines[4], "sl_batch_lower_bound = ");
    var e := Entry(lines[5], "sl_batch_upper_bound = ");
    if lines[0] == TABLE_HEADER && a.Some? && b.Some? && c.Some? && d.Some? && e.Some?
    then Some(Interval(a.value, b.value, c.value, d.value, e.value))
    else None
  }

  /** The tables that a sequence of lines starts with. */
  function ReadTables(lines: seq<string>): seq<Interval> {
    if |lines| < 6 then []
    else match ReadOne(lines)
      case None => []
      case Some(i) => [i] + ReadTables(lines[6..])
  }

  function ReadIntervals(text: string): seq<Interval> {
    var lines := Split(text, '\n');
    ReadTables(lines[Cutoff(lines)..])
  }

  lemma NoBreakInNumeral(key: string, n: nat)
    requires '\n' !in key
    ensures '\n' !in key + Decimal(n)
  {
    assert forall k :: 0 <= k < |Decimal(n)| ==> IsDigit(Decimal(n)[k]);
  }

  lemma ChainLinesHaveNoBreak(i: Interval)
    ensures forall k :: 0 <= k < 3 ==> '\n' !in SerializedLines(i)[k]
  {
    NoBreakInNumeral("chain_id = ", i.chainId);
    NoBreakInNumeral("migrate_to_sl_batch = ", i.migrateToGWBatchNumber);
  }

  lemma BatchLinesHaveNoBreak(i: Interval)
    ensures forall k :: 3 <= k < 6 ==> '\n' !in SerializedLines(i)[k]
  {
    NoBreakInNumeral("migrate_from_sl_batch = ", i.migrateFromGWBatchNumber);
    NoBreakInNumeral("sl_batch_lower_bound = ", i.slBatchLowerBound);
    NoBreakInNumeral("sl_batch_upper_bound = ", i.slBatchUpperBound);
  }

  lemma SerializedSplits(i: Interval)
    ensures Split(SerializeInterval(i), '\n') == SerializedLines(i)
  {
    ChainLinesHaveNoBreak(i);
    BatchLinesHaveNoBreak(i);
    SplitJoin(SerializedLines(i), '\n');
  }

  lemma ReadOneBack(i: Interval, rest: seq<string>)
    ensures ReadOne(SerializedLines(i) + rest) == Some(i)
  {
    EntryOfPrinted("chain_id = ", i.chainId);
    EntryOfPrinted("migrate_to_sl_batch = ", i.migrateToGWBatchNumber);
    EntryOfPrinted("migrate_from_sl_batch = ", i.migrateFromGWBatchNumber);
    EntryOfPrinted("sl_batch_lower_bound = ", i.slBatchLowerBound);
    EntryOfPrinted("sl_batch_upper_bound = ", i.slBatchUpperBound);
  }

  lemma ReadCons(i: Interval, rest: string)
    ensures ReadTables(Split(SerializeInterval(i) + ['\n'] + rest, '\n')) == [i] + ReadTables(Split(rest, '\n'))
  {
    SerializedSplits(i);
    SplitConcat(SerializeInterval(i), rest, '\n');
    ReadOneBack(i, Split(rest, '\n'));
    assert (SerializedLines(i) + Split(rest, '\n'))[6..] == Split(rest, '\n');
  }

  lemma Regroup(a: string, b: string)
    ensures (a + ['\n'] + b) + "\n" == a + ['\n'] + (b + "\n")
    ensures a + "\n" == a + ['\n'] + ""
  {
  }

  lemma {:induction false} ReadTablesBack(intervals: seq<Interval>)
    requires intervals != []
    ensures ReadTables(Split(Serialized(intervals) + "\n", '\n')) == intervals
  {
    var i := intervals[0];
    SerializedCons(intervals);
    if |intervals| == 1 {
      Regroup(SerializeInterval(i), "");
      ReadCons(i, "");
      assert intervals == [i];
    } else {
      var rest := Serialized(intervals[1..]);
      Regroup(SerializeInterval(i), rest);
      ReadTablesBack(intervals[1..]);
      ReadCons(i, rest + "\n");
      assert intervals == [i] + intervals[1..];
    }
  }

  lemma NothingToRead(line: string)
    requires '\n' !in line
    ensures ReadTables(Split(line + "\n", '\n')) == []
  {
    SplitFirst(line, "", '\n');
    assert line + ['\n'] + "" == line + "\n";
  }

  lemma ContentReadsBack(intervals: seq<Interval>, content: string)
    requires content == IntervalContent(intervals) + "\n"
    ensures ReadTables(Split(content, '\n')) == intervals
  {
    if intervals == [] {
      NothingToRead("chain_intervals = []");
    } else {
      ReadTablesBack(intervals);
    }
  }

  /** Reading the written file gives back the intervals, whatever the file held before. */
  lemma WriteThenRead(raw: string, intervals: seq<Interval>)
    ensures ReadIntervals(Rewrite(raw, intervals)) == intervals
  {
    RewriteLines(raw, intervals);
    var lines, content := Split(Rewrite(raw, intervals), '\n'), IntervalContent(intervals) + "\n";
    assert lines[Cutoff(lines)..] == Split(content, '\n');
    ContentReadsBack(intervals, content);
  }
}
