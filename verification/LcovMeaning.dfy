/**
 What the parsers of coverage reports store, said by position in the report: which lines belong to
 a record, and which of several counts for the same line or function counts.
 */
module LcovMeaning {
  import opened Wrappers
  import opened LcovFormat
  import opened LcovReport
  import opened LcovFile
  import opened LcovMerge
  import opened LcovMergeTool

  // ----- records by position -----

  predicate Breaks(e: Entry) {
    e.Source? || e.End?
  }

  ghost predicate Unbroken(es: seq<Entry>, i: nat, m: nat) {
    i <= m <= |es| && forall j :: i <= j < m ==> !Breaks(es[j])
  }

  /** Entry `s` opens a record of file `f` that is still open in front of position `m`. */
  ghost predicate OpenedAt(es: seq<Entry>, s: nat, m: nat, f: string) {
    s < m <= |es| && es[s] == Source(f) && Unbroken(es, s + 1, m)
  }

  ghost predicate InRecord(es: seq<Entry>, m: nat, f: string) {
    f != "" && exists s: nat :: OpenedAt(es, s, m, f)
  }

  /** Entry `c` closes a record of file `f`. */
  ghost predicate Closes(es: seq<Entry>, c: nat, f: string) {
    c < |es| && es[c].End? && InRecord(es, c, f)
  }

  /** What an entry reports: a count for a line, or for a function. */
  function LineCount(e: Entry): Option<(nat, nat)> {
    if e.Data? then Some((e.line, e.hits)) else None
  }

  function CallCount(e: Entry): Option<(string, nat)> {
    if e.Plain? && ItemOf(e.text).Calls? && ItemOf(e.text).hits.Some? then Some((ItemOf(e.text).name, ItemOf(e.text).hits.value)) else None
  }

  /** The stretch without a break in front of position `m` reports `h` for `k`. */
  ghost predicate Reports<K>(es: seq<Entry>, m: nat, count: Entry -> Option<(K, nat)>, k: K, h: nat) {
    exists i: nat :: i < m <= |es| && count(es[i]) == Some((k, h)) && Unbroken(es, i, m)
  }

  /** `hits` holds exactly what is reported, the largest count for each. */
  ghost predicate IsLargest<K(!new)>(hits: map<K, nat>, reported: (K, nat) -> bool) {
    && (forall k, h: nat :: reported(k, h) ==> k in hits && h <= hits[k])
    && forall k :: k in hits ==> reported(k, hits[k])
  }

  // ----- one entry more -----

  lemma UnbrokenPrefix(es: seq<Entry>, e: Entry, i: nat, m: nat)
    requires m <= |es|
    ensures Unbroken(es + [e], i, m) <==> Unbroken(es, i, m)
  {
    var all := es + [e];
    assert forall j :: 0 <= j < |es| ==> all[j] == es[j];
  }

  lemma UnbrokenSnoc(es: seq<Entry>, e: Entry, i: nat)
    requires i <= |es|
    ensures Unbroken(es + [e], i, |es| + 1) <==> Unbroken(es, i, |es|) && !Breaks(e)
  {
    var all := es + [e];
    assert all[|es|] == e && forall j :: 0 <= j < |es| ==> all[j] == es[j];
  }

  lemma InRecordPrefix(es: seq<Entry>, e: Entry, m: nat, f: string)
    requires m <= |es|
    ensures InRecord(es + [e], m, f) <==> InRecord(es, m, f)
  {
    forall s: nat ensures OpenedAt(es + [e], s, m, f) <==> OpenedAt(es, s, m, f) {
      UnbrokenPrefix(es, e, s + 1, m);
    }
  }

  lemma InRecordSnoc(es: seq<Entry>, e: Entry, f: string)
    ensures InRecord(es + [e], |es| + 1, f) <==>
      if e.Source? then f != "" && e.file == f else !e.End? && InRecord(es, |es|, f)
  {
    var all, m := es + [e], |es| + 1;
    forall s: nat | s < |es| ensures OpenedAt(all, s, m, f) <==> OpenedAt(es, s, |es|, f) && !Breaks(e) {
      UnbrokenSnoc(es, e, s + 1);
    }
    assert OpenedAt(all, |es|, m, f) <==> e == Source(f);
    if s: nat :| OpenedAt(all, s, m, f) {
      assert s == |es| || OpenedAt(es, s, |es|, f);
    }
    if !Breaks(e) {
      if s: nat :| OpenedAt(es, s, |es|, f) {
        assert OpenedAt(all, s, m, f);
      }
    }
  }

  lemma ReportsPrefix<K>(es: seq<Entry>, e: Entry, m: nat, count: Entry -> Option<(K, nat)>, k: K, h: nat)
    requires m <= |es|
    ensures Reports(es + [e], m, count, k, h) <==> Reports(es, m, count, k, h)
  {
    var all := es + [e];
    forall i: nat | i < m
      ensures count(all[i]) == Some((k, h)) && Unbroken(all, i, m) <==> count(es[i]) == Some((k, h)) && Unbroken(es, i, m)
    {
      UnbrokenPrefix(es, e, i, m);
    }
  }

  lemma ReportsSnoc<K>(es: seq<Entry>, e: Entry, count: Entry -> Option<(K, nat)>, k: K, h: nat)
    ensures Reports(es + [e], |es| + 1, count, k, h) <==> !Breaks(e) && (Reports(es, |es|, count, k, h) || count(e) == Some((k, h)))
  {
    var all := es + [e];
    forall i: nat | i < |es|
      ensures count(all[i]) == Some((k, h)) && Unbroken(all, i, |es| + 1)
         <==> count(es[i]) == Some((k, h)) && Unbroken(es, i, |es|) && !Breaks(e)
    {
      UnbrokenSnoc(es, e, i);
    }
    UnbrokenSnoc(es, e, |es|);
    assert all[|es|] == e;
  }

  lemma ClosesPrefix(es: seq<Entry>, e: Entry, c: nat, f: string)
    requires c < |es|
    ensures Closes(es + [e], c, f) <==> Closes(es, c, f)
  {
    InRecordPrefix(es, e, c, f);
  }

  lemma ClosesLast(es: seq<Entry>, e: Entry, f: string)
    ensures Closes(es + [e], |es|, f) <==> e.End? && InRecord(es, |es|, f)
  {
    InRecordPrefix(es, e, |es|, f);
  }

  // ----- the record being read -----

  /** The parser's current file is the one whose record is open. */
  lemma {:induction false} CurrentIs(es: seq<Entry>, f: string)
    requires f != ""
    ensures Run(Start, es).current == f <==> InRecord(es, |es|, f)
  {
    if es != [] {
      var init, e := es[..|es| - 1], es[|es| - 1];
      assert es == init + [e];
      CurrentIs(init, f);
      RunSnoc(Start, init, e);
      InRecordSnoc(init, e, f);
    }
  }

  ghost function Reported<K>(es: seq<Entry>, m: nat, count: Entry -> Option<(K, nat)>): (K, nat) -> bool {
    (k: K, h: nat) => Reports(es, m, count, k, h)
  }

  /** Raising one count adds one report. */
  lemma RaiseLargest<K(!new)>(hits: map<K, nat>, before: (K, nat) -> bool, k: K, h: nat, raised: map<K, nat>, after: (K, nat) -> bool)
    requires IsLargest(hits, before) && raised == hits[k := if k in hits && hits[k] > h then hits[k] else h]
    requires forall x, y: nat :: after(x, y) <==> before(x, y) || (x == k && y == h)
    ensures IsLargest(raised, after)
  {
  }

  lemma SameLargest<K(!new)>(hits: map<K, nat>, before: (K, nat) -> bool, after: (K, nat) -> bool)
    requires IsLargest(hits, before) && forall x, y: nat :: after(x, y) <==> before(x, y)
    ensures IsLargest(hits, after)
  {
  }

  lemma NothingLargest<K(!new)>(reported: (K, nat) -> bool)
    requires forall k, h: nat :: !reported(k, h)
    ensures IsLargest(map[], reported)
  {
  }

  /** What reading entry `e` makes of the counts `hits` of the open record. */
  ghost predicate Counted<K>(hits: map<K, nat>, e: Entry, count: Entry -> Option<(K, nat)>, next: map<K, nat>) {
    if e.Source? then next == map[]
    else if count(e).Some? then var (k, h) := count(e).value; next == hits[k := if k in hits && hits[k] > h then hits[k] else h]
    else next == hits
  }

  lemma CountsStep<K(!new)>(es: seq<Entry>, e: Entry, count: Entry -> Option<(K, nat)>, hits: map<K, nat>, next: map<K, nat>)
    requires !e.End? && (!e.Source? ==> IsLargest(hits, Reported(es, |es|, count))) && Counted(hits, e, count, next)
    ensures IsLargest(next, Reported(es + [e], |es| + 1, count))
  {
    var before, after := Reported(es, |es|, count), Reported(es + [e], |es| + 1, count);
    forall k, h: nat ensures after(k, h) <==> !Breaks(e) && (before(k, h) || count(e) == Some((k, h))) {
      ReportsSnoc(es, e, count, k, h);
    }
    if e.Source? {
      NothingLargest(after);
    } else if count(e).Some? {
      RaiseLargest(hits, before, count(e).value.0, count(e).value.1, next, after);
    } else {
      SameLargest(hits, before, after);
    }
  }

  lemma StepCounts(st: State, e: Entry)
    requires Step(st, e).current != ""
    ensures !e.End? && (!e.Source? ==> st.current != "") && Counted(st.lines, e, LineCount, Step(st, e).lines)
  {
  }

  lemma AnvilStepCounts(st: AnvilState, e: Entry)
    requires AnvilStep(st, e).current != ""
    ensures !e.End? && (!e.Source? ==> st.current != "")
    ensures Counted(st.lines, e, LineCount, AnvilStep(st, e).lines) && Counted(st.calls, e, CallCount, AnvilStep(st, e).calls)
  {
  }

  /** The hits read so far are the largest counts of the open record. */
  lemma {:induction false} OpenLines(es: seq<Entry>, st: State)
    requires st == Run(Start, es) && st.current != ""
    ensures IsLargest(st.lines, Reported(es, |es|, LineCount))
  {
    var init, e := es[..|es| - 1], es[|es| - 1];
    var before := Run(Start, init);
    assert es == init + [e] && st == Step(before, e);
    StepCounts(before, e);
    if !e.Source? {
      OpenLines(init, before);
    }
    CountsStep(init, e, LineCount, before.lines, st.lines);
  }

  lemma {:induction false} OpenCalls(es: seq<Entry>, st: AnvilState)
    requires st == AnvilRun(es) && st.current != ""
    ensures IsLargest(st.lines, Reported(es, |es|, LineCount))
    ensures IsLargest(st.calls, Reported(es, |es|, CallCount))
  {
    var init, e := es[..|es| - 1], es[|es| - 1];
    var before := AnvilRun(init);
    assert es == init + [e] && st == AnvilStep(before, e);
    AnvilStepCounts(before, e);
    if !e.Source? {
      OpenCalls(init, before);
    }
    CountsStep(init, e, LineCount, before.lines, st.lines);
    CountsStep(init, e, CallCount, before.calls, st.calls);
  }

  // ----- the stored records -----

  ghost predicate Closed(es: seq<Entry>, f: string) {
    exists c: nat :: Closes(es, c, f)
  }

  /** A closed record of file `f` reports `h` for `k`. */
  ghost function ReportedFor<K>(es: seq<Entry>, f: string, count: Entry -> Option<(K, nat)>): (K, nat) -> bool {
    (k: K, h: nat) => exists c: nat :: Closes(es, c, f) && Reports(es, c, count, k, h)
  }

  /** Entry `c` closes the last record of file `f`. */
  ghost predicate ClosesLastRecord(es: seq<Entry>, c: nat, f: string) {
    Closes(es, c, f) && forall d: nat :: d > c ==> !Closes(es, d, f)
  }

  ghost function ReportedLast<K>(es: seq<Entry>, f: string, count: Entry -> Option<(K, nat)>): (K, nat) -> bool {
    (k: K, h: nat) => exists c: nat :: ClosesLastRecord(es, c, f) && Reports(es, c, count, k, h)
  }

  lemma ClosedSnoc(es: seq<Entry>, e: Entry, f: string)
    ensures Closed(es + [e], f) <==> Closed(es, f) || (e.End? && InRecord(es, |es|, f))
  {
    ClosesLast(es, e, f);
    forall c: nat | c < |es| ensures Closes(es + [e], c, f) <==> Closes(es, c, f) { ClosesPrefix(es, e, c, f); }
    if c: nat :| Closes(es + [e], c, f) {
      assert c == |es| || Closes(es, c, f);
    }
    if c: nat :| Closes(es, c, f) {
      assert Closes(es + [e], c, f);
    }
  }

  lemma ReportedForSnoc<K>(es: seq<Entry>, e: Entry, f: string, count: Entry -> Option<(K, nat)>, k: K, h: nat)
    ensures ReportedFor(es + [e], f, count)(k, h) <==>
      ReportedFor(es, f, count)(k, h) || (e.End? && InRecord(es, |es|, f) && Reported(es, |es|, count)(k, h))
  {
    var all := es + [e];
    ClosesLast(es, e, f);
    ReportsPrefix(es, e, |es|, count, k, h);
    forall c: nat | c < |es|
      ensures Closes(all, c, f) && Reports(all, c, count, k, h) <==> Closes(es, c, f) && Reports(es, c, count, k, h)
    {
      ClosesPrefix(es, e, c, f);
      ReportsPrefix(es, e, c, count, k, h);
    }
    if c: nat :| Closes(all, c, f) && Reports(all, c, count, k, h) {
      assert c == |es| || (Closes(es, c, f) && Reports(es, c, count, k, h));
    }
    if c: nat :| Closes(es, c, f) && Reports(es, c, count, k, h) {
      assert Closes(all, c, f) && Reports(all, c, count, k, h);
    }
  }

  /** Line by line the larger of two records holds what either reports. */
  lemma LargestOfBoth(a: map<nat, nat>, p: (nat, nat) -> bool, b: map<nat, nat>, q: (nat, nat) -> bool, r: (nat, nat) -> bool)
    requires IsLargest(a, p) && IsLargest(b, q) && forall n: nat, h: nat :: r(n, h) <==> p(n, h) || q(n, h)
    ensures IsLargest(MaxLines(a, b), r)
  {
    var m := MaxLines(a, b);
    forall n: nat, h: nat | r(n, h) ensures n in m && h <= m[n] {
      assert p(n, h) || q(n, h);
    }
    forall n | n in m ensures r(n, m[n]) {
      assert m[n] == if n in a && (n !in b || a[n] >= b[n]) then a[n] else b[n];
    }
  }

  /** What the full parser has stored for file `f` after `es`. */
  ghost predicate StoresLargest(files: Files, es: seq<Entry>, f: string) {
    && (f in files <==> Closed(es, f))
    && (f in files ==> IsLargest(files[f].lines, ReportedFor(es, f, LineCount)))
  }

  lemma StoreKeeps(es: seq<Entry>, e: Entry, f: string, files: Files)
    requires StoresLargest(files, es, f) && !(e.End? && InRecord(es, |es|, f))
    ensures StoresLargest(files, es + [e], f)
  {
    ClosedSnoc(es, e, f);
    forall n: nat, h: nat ensures ReportedFor(es + [e], f, LineCount)(n, h) <==> ReportedFor(es, f, LineCount)(n, h) {
      ReportedForSnoc(es, e, f, LineCount, n, h);
    }
    if f in files {
      SameLargest(files[f].lines, ReportedFor(es, f, LineCount), ReportedFor(es + [e], f, LineCount));
    }
  }

  lemma StoreAdds(es: seq<Entry>, f: string, files: Files, preamble: seq<string>, lines: map<nat, nat>)
    requires StoresLargest(files, es, f) && InRecord(es, |es|, f) && IsLargest(lines, Reported(es, |es|, LineCount))
    ensures StoresLargest(Store(files, f, preamble, lines), es + [End], f)
  {
    var before, now, all := ReportedFor(es, f, LineCount), Reported(es, |es|, LineCount), ReportedFor(es + [End], f, LineCount);
    ClosedSnoc(es, End, f);
    forall n: nat, h: nat ensures all(n, h) <==> before(n, h) || now(n, h) {
      ReportedForSnoc(es, End, f, LineCount, n, h);
    }
    if f in files {
      LargestOfBoth(files[f].lines, before, lines, now, all);
    } else {
      assert forall n: nat, h: nat :: !before(n, h);
      SameLargest(lines, now, all);
    }
  }

  lemma {:induction false} FullParserStores(es: seq<Entry>, f: string)
    requires f != ""
    ensures StoresLargest(Run(Start, es).files, es, f)
  {
    if es != [] {
      var init, e := es[..|es| - 1], es[|es| - 1];
      var st := Run(Start, init);
      assert es == init + [e];
      FullParserStores(init, f);
      CurrentIs(init, f);
      if e.End? && st.current == f {
        OpenLines(init, st);
        StoreAdds(init, f, st.files, st.preamble, st.lines);
      } else {
        StoreKeeps(init, e, f, st.files);
        SameStored(st, e, f, init + [e]);
      }
    }
  }

  lemma SameStored(st: State, e: Entry, f: string, es: seq<Entry>)
    requires StoresLargest(st.files, es, f) && f != "" && !(e.End? && st.current == f)
    ensures StoresLargest(Step(st, e).files, es, f)
  {
    assert f in Step(st, e).files <==> f in st.files;
    assert f in st.files ==> Step(st, e).files[f] == st.files[f];
  }

  /**
   For every report and file: the file is stored exactly if one of its records is closed. A line has
   hits exactly if such a record reports it, and then the largest count reported.
   */
  lemma ParsedHits(content: string, f: string)
    requires f != ""
    ensures StoresLargest(ParseText(content), EntriesOf(content), f)
  {
    FullParserStores(EntriesOf(content), f);
  }

  // ----- Anvil's report -----

  lemma ReportedLastSame<K>(es: seq<Entry>, e: Entry, f: string, count: Entry -> Option<(K, nat)>, k: K, h: nat)
    requires !(e.End? && InRecord(es, |es|, f))
    ensures ReportedLast(es + [e], f, count)(k, h) <==> ReportedLast(es, f, count)(k, h)
  {
    var all := es + [e];
    ClosesLast(es, e, f);
    forall c: nat ensures Closes(all, c, f) <==> Closes(es, c, f) {
      if c < |es| { ClosesPrefix(es, e, c, f); }
    }
    forall c: nat | c < |es| ensures Reports(all, c, count, k, h) <==> Reports(es, c, count, k, h) {
      ReportsPrefix(es, e, c, count, k, h);
    }
    forall c: nat ensures ClosesLastRecord(all, c, f) <==> ClosesLastRecord(es, c, f) {
    }
  }

  lemma ReportedLastNew<K>(es: seq<Entry>, e: Entry, f: string, count: Entry -> Option<(K, nat)>, k: K, h: nat)
    requires e.End? && InRecord(es, |es|, f)
    ensures ReportedLast(es + [e], f, count)(k, h) <==> Reported(es, |es|, count)(k, h)
  {
    var all := es + [e];
    ClosesLast(es, e, f);
    ReportsPrefix(es, e, |es|, count, k, h);
    assert ClosesLastRecord(all, |es|, f);
    assert forall c: nat :: ClosesLastRecord(all, c, f) ==> c == |es|;
  }

  ghost predicate StoresLast(files: Anvil, es: seq<Entry>, f: string) {
    && (f in files <==> Closed(es, f))
    && (f in files ==>
          && IsLargest(files[f].lines, ReportedLast(es, f, LineCount))
          && IsLargest(files[f].functionHits, ReportedLast(es, f, CallCount)))
  }

  lemma LastKeeps(es: seq<Entry>, e: Entry, f: string, files: Anvil)
    requires StoresLast(files, es, f) && !(e.End? && InRecord(es, |es|, f))
    ensures StoresLast(files, es + [e], f)
  {
    ClosedSnoc(es, e, f);
    forall n: nat, h: nat ensures ReportedLast(es + [e], f, LineCount)(n, h) <==> ReportedLast(es, f, LineCount)(n, h) {
      ReportedLastSame(es, e, f, LineCount, n, h);
    }
    forall n: string, h: nat ensures ReportedLast(es + [e], f, CallCount)(n, h) <==> ReportedLast(es, f, CallCount)(n, h) {
      ReportedLastSame(es, e, f, CallCount, n, h);
    }
    if f in files {
      SameLargest(files[f].lines, ReportedLast(es, f, LineCount), ReportedLast(es + [e], f, LineCount));
      SameLargest(files[f].functionHits, ReportedLast(es, f, CallCount), ReportedLast(es + [e], f, CallCount));
    }
  }

  lemma LastAdds(es: seq<Entry>, f: string, files: Anvil, a: AnvilFile)
    requires InRecord(es, |es|, f)
    requires IsLargest(a.lines, Reported(es, |es|, LineCount)) && IsLargest(a.functionHits, Reported(es, |es|, CallCount))
    ensures StoresLast(files[f := a], es + [End], f)
  {
    ClosedSnoc(es, End, f);
    forall n: nat, h: nat ensures ReportedLast(es + [End], f, LineCount)(n, h) <==> Reported(es, |es|, LineCount)(n, h) {
      ReportedLastNew(es, End, f, LineCount, n, h);
    }
    forall n: string, h: nat ensures ReportedLast(es + [End], f, CallCount)(n, h) <==> Reported(es, |es|, CallCount)(n, h) {
      ReportedLastNew(es, End, f, CallCount, n, h);
    }
    SameLargest(a.lines, Reported(es, |es|, LineCount), ReportedLast(es + [End], f, LineCount));
    SameLargest(a.functionHits, Reported(es, |es|, CallCount), ReportedLast(es + [End], f, CallCount));
  }

  lemma SameLast(st: AnvilState, e: Entry, f: string, es: seq<Entry>)
    requires StoresLast(st.files, es, f) && f != "" && !(e.End? && st.current == f)
    ensures StoresLast(AnvilStep(st, e).files, es, f)
  {
    assert f in AnvilStep(st, e).files <==> f in st.files;
    assert f in st.files ==> AnvilStep(st, e).files[f] == st.files[f];
  }

  lemma {:induction false} AnvilParserStores(es: seq<Entry>, f: string)
    requires f != ""
    ensures StoresLast(AnvilRun(es).files, es, f)
  {
    if es != [] {
      var init, e := es[..|es| - 1], es[|es| - 1];
      var st := AnvilRun(init);
      assert es == init + [e];
      AnvilParserStores(init, f);
      CurrentIs(init, f);
      RunsAgree(init);
      if e.End? && st.current == f {
        OpenCalls(init, st);
        LastAdds(init, f, st.files, AnvilFile(st.lines, st.calls));
      } else {
        LastKeeps(init, e, f, st.files);
        SameLast(st, e, f, init + [e]);
      }
    }
  }

  /** The same for Anvil's report, where only the last closed record of a file counts; also for function hits. */
  lemma AnvilHits(content: string, f: string)
    requires f != ""
    ensures StoresLast(AnvilText(content), EntriesOf(content), f)
  {
    AnvilParserStores(EntriesOf(content), f);
  }
}
