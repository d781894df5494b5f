/**
 The output directory over whole histories of runs that begin with an empty directory: which files
 are there, which are listed, and when the two are the same.
 */
module BundleDirectory {
  import opened BundleManifest

  const EMPTY := Dir(Missing, map[], [])

  /** The run leaves at least one file. */
  predicate Writes(r: Run) {
    Touched(r, |r.bundles|) > 0
  }

  /** What a caller can check: the first bundle is complete, and its file is saved or left behind. */
  lemma WritesIff(r: Run)
    ensures Writes(r) <==> |r.bundles| > 0 && (Stored(r, 0) || LeavesFile(r, 0))
  {
  }

  /** The number after the last listed one: every successful run advances it by its bundles. */
  function NextAfter(runs: seq<Run>): (n: nat)
    ensures n >= 1
  {
    if runs == [] then 1
    else
      var r := runs[|runs| - 1];
      NextAfter(runs[..|runs| - 1]) + if Succeeds(r) then |r.bundles| else 0
  }

  /** The files that run `k` of a history writes. */
  function FilesOf(runs: seq<Run>, k: nat): set<string>
    requires k < |runs|
  {
    Names(runs[k], NextAfter(runs[..k]), Touched(runs[k], |runs[k].bundles|))
  }

  ghost predicate WrittenIn(runs: seq<Run>, f: string) {
    exists k :: 0 <= k < |runs| && f in FilesOf(runs, k)
  }

  /** Run `k` writes the file and lists it. */
  predicate Lists(runs: seq<Run>, k: nat, f: string)
    requires k < |runs|
  {
    Succeeds(runs[k]) && f in FilesOf(runs, k)
  }

  ghost predicate ListedIn(runs: seq<Run>, f: string) {
    exists k :: 0 <= k < |runs| && Lists(runs, k, f)
  }

  ghost function Listed(d: Dir): set<string> {
    set e | e in Entries(d.manifest) :: e.file
  }

  lemma FilesOfPrefix(runs: seq<Run>, n: nat, k: nat)
    requires k < n <= |runs|
    ensures FilesOf(runs[..n], k) == FilesOf(runs, k)
  {
    assert runs[..n][..k] == runs[..k];
  }

  /** One more run. */
  lemma WrittenSnoc(runs: seq<Run>, f: string)
    requires runs != []
    ensures var n := |runs| - 1; WrittenIn(runs, f) <==> WrittenIn(runs[..n], f) || f in FilesOf(runs, n)
  {
    WrittenBefore(runs, f, |runs| - 1);
    WrittenStill(runs, f, |runs| - 1);
  }

  lemma WrittenBefore(runs: seq<Run>, f: string, n: nat)
    requires n + 1 == |runs|
    ensures WrittenIn(runs, f) ==> WrittenIn(runs[..n], f) || f in FilesOf(runs, n)
  {
    if k :| 0 <= k < n && f in FilesOf(runs, k) {
      FilesOfPrefix(runs, n, k);
      assert f in FilesOf(runs[..n], k);
    }
  }

  lemma WrittenStill(runs: seq<Run>, f: string, n: nat)
    requires n <= |runs|
    ensures WrittenIn(runs[..n], f) ==> WrittenIn(runs, f)
  {
    if k :| 0 <= k < n && f in FilesOf(runs[..n], k) {
      FilesOfPrefix(runs, n, k);
      assert f in FilesOf(runs, k);
    }
  }

  lemma ListsPrefix(runs: seq<Run>, n: nat, k: nat, f: string)
    requires k < n <= |runs|
    ensures Lists(runs[..n], k, f) <==> Lists(runs, k, f)
  {
    FilesOfPrefix(runs, n, k);
  }

  lemma ListedSnoc(runs: seq<Run>, f: string)
    requires runs != []
    ensures var n := |runs| - 1; ListedIn(runs, f) <==> ListedIn(runs[..n], f) || Lists(runs, n, f)
  {
    ListedBefore(runs, f, |runs| - 1);
    ListedStill(runs, f, |runs| - 1);
  }

  lemma ListedBefore(runs: seq<Run>, f: string, n: nat)
    requires n + 1 == |runs|
    ensures ListedIn(runs, f) ==> ListedIn(runs[..n], f) || Lists(runs, n, f)
  {
    if k :| 0 <= k < n && Lists(runs, k, f) {
      ListsPrefix(runs, n, k, f);
      assert Lists(runs[..n], k, f);
    }
  }

  lemma ListedStill(runs: seq<Run>, f: string, n: nat)
    requires n <= |runs|
    ensures ListedIn(runs[..n], f) ==> ListedIn(runs, f)
  {
    if k :| 0 <= k < n && Lists(runs[..n], k, f) {
      ListsPrefix(runs, n, k, f);
      assert Lists(runs, k, f);
    }
  }

  lemma MaxIndexSnoc(entries: seq<Entry>, e: Entry, all: seq<Entry>)
    requires all == entries + [e]
    ensures MaxIndex(all) == if MaxIndex(entries) < e.index then e.index else MaxIndex(entries)
  {
    assert all[..|entries|] == entries;
  }

  lemma AppendLast(a: seq<Entry>, b: seq<Entry>)
    requires b != []
    ensures a + b == (a + b[..|b| - 1]) + [b[|b| - 1]]
  {
  }

  lemma {:induction false} MaxIndexAppend(a: seq<Entry>, b: seq<Entry>, next: nat, all: seq<Entry>)
    requires next == MaxIndex(a) + 1 && all == a + b && forall i :: 0 <= i < |b| ==> b[i].index == next + i
    ensures MaxIndex(all) + 1 == next + |b|
  {
    if b == [] {
      assert all == a;
    } else {
      var init := a + b[..|b| - 1];
      MaxIndexAppend(a, b[..|b| - 1], next, init);
      AppendLast(a, b);
      MaxIndexSnoc(init, b[|b| - 1], all);
    }
  }

  lemma EntryNames(entries: seq<Entry>, r: Run, next: nat, f: string)
    requires EntriesFor(entries, r, next, |r.bundles|)
    ensures (exists e :: e in entries && e.file == f) <==> f in Names(r, next, |r.bundles|)
  {
    if f in Names(r, next, |r.bundles|) {
      var i :| 0 <= i < |r.bundles| && f == NameOf(r, next, i);
      assert entries[i] in entries;
    }
  }

  /** What is known about the directory after a history. */
  ghost predicate Reflects(d: Dir, runs: seq<Run>) {
    && !d.manifest.Malformed? && MaxIndex(Entries(d.manifest)) + 1 == NextAfter(runs)
    && (forall f :: f in d.files <==> WrittenIn(runs, f))
    && (forall f :: f in Listed(d) <==> ListedIn(runs, f))
  }

  lemma AfterOutcome(d: Dir, r: Run, next: nat, d': Dir) returns (added: seq<Entry>)
    requires !d.manifest.Malformed? && next == MaxIndex(Entries(d.manifest)) + 1 && d' == After(d, r)
    ensures !d'.manifest.Malformed? && d'.files.Keys == d.files.Keys + Names(r, next, Touched(r, |r.bundles|))
    ensures Entries(d'.manifest) == Entries(d.manifest) + added
    ensures if Succeeds(r) then EntriesFor(added, r, next, |r.bundles|) else added == []
  {
    var jobs := Jobs(r, next, |r.bundles|);
    RunOutcome(d.files, r, next, jobs);
    AfterIs(d, r, jobs);
    added := if Succeeds(r) then Loop(d.files, jobs).entries else [];
  }

  lemma SucceedsTouchesAll(r: Run)
    requires Succeeds(r)
    ensures Touched(r, |r.bundles|) == |r.bundles|
  {
  }

  lemma ListedAppend(a: Dir, b: Dir, added: seq<Entry>, f: string)
    requires Entries(b.manifest) == Entries(a.manifest) + added
    ensures f in Listed(b) <==> f in Listed(a) || exists e :: e in added && e.file == f
  {
  }

  lemma ListingStep(d: Dir, d': Dir, runs: seq<Run>, added: seq<Entry>, next: nat, f: string)
    requires runs != [] && next == NextAfter(runs[..|runs| - 1]) && Entries(d'.manifest) == Entries(d.manifest) + added
    requires var r := runs[|runs| - 1]; if Succeeds(r) then EntriesFor(added, r, next, |r.bundles|) else added == []
    requires f in Listed(d) <==> ListedIn(runs[..|runs| - 1], f)
    ensures f in Listed(d') <==> ListedIn(runs, f)
  {
    var r := runs[|runs| - 1];
    ListedSnoc(runs, f);
    ListedAppend(d, d', added, f);
    if Succeeds(r) {
      SucceedsTouchesAll(r);
      EntryNames(added, r, next, f);
    }
  }

  lemma ReflectsFiles(d: Dir, d': Dir, runs: seq<Run>, f: string)
    requires runs != [] && (f in d.files <==> WrittenIn(runs[..|runs| - 1], f))
    requires d'.files.Keys == d.files.Keys + FilesOf(runs, |runs| - 1)
    ensures f in d'.files <==> WrittenIn(runs, f)
  {
    WrittenSnoc(runs, f);
    assert f in d'.files <==> f in d'.files.Keys;
  }

  lemma NextStep(entries: seq<Entry>, added: seq<Entry>, runs: seq<Run>, next: nat)
    requires runs != [] && next == NextAfter(runs[..|runs| - 1]) == MaxIndex(entries) + 1
    requires var r := runs[|runs| - 1]; if Succeeds(r) then EntriesFor(added, r, next, |r.bundles|) else added == []
    ensures MaxIndex(entries + added) + 1 == NextAfter(runs)
  {
    MaxIndexAppend(entries, added, next, entries + added);
  }

  lemma ReflectsStep(d: Dir, runs: seq<Run>, d': Dir)
    requires runs != [] && Reflects(d, runs[..|runs| - 1]) && d' == After(d, runs[|runs| - 1])
    ensures Reflects(d', runs)
  {
    var n := |runs| - 1;
    var next := NextAfter(runs[..n]);
    var added := AfterOutcome(d, runs[n], next, d');
    NextStep(Entries(d.manifest), added, runs, next);
    forall f ensures f in d'.files <==> WrittenIn(runs, f) {
      ReflectsFiles(d, d', runs, f);
    }
    forall f ensures f in Listed(d') <==> ListedIn(runs, f) {
      ListingStep(d, d', runs, added, next, f);
    }
  }

  /** After every history: the files are those some run wrote, the listed ones those a successful run wrote. */
  lemma {:induction false} DirectoryReflectsRuns(runs: seq<Run>)
    ensures Reflects(AfterAll(EMPTY, runs), runs)
  {
    if runs != [] {
      DirectoryReflectsRuns(runs[..|runs| - 1]);
      ReflectsStep(AfterAll(EMPTY, runs[..|runs| - 1]), runs, AfterAll(EMPTY, runs));
    }
  }

  // ----- when exactly the listed files are there -----

  ghost predicate OnlyListed(d: Dir) {
    d.files.Keys == Listed(d)
  }

  /** Every file a failed run left is written again by a later run that lists it. */
  ghost predicate LeftoversAdopted(runs: seq<Run>) {
    forall k, f :: 0 <= k < |runs| && !Succeeds(runs[k]) && f in FilesOf(runs, k) ==> Adopted(runs, k, f)
  }

  ghost predicate Adopted(runs: seq<Run>, k: nat, f: string) {
    exists j :: k < j < |runs| && Lists(runs, j, f)
  }

  lemma {:induction false} NextGrows(runs: seq<Run>, j: nat, k: nat)
    requires j <= k <= |runs|
    ensures NextAfter(runs[..j]) <= NextAfter(runs[..k])
    ensures j < k && Succeeds(runs[j]) ==> NextAfter(runs[..j]) + |runs[j].bundles| <= NextAfter(runs[..k])
  {
    if j < k {
      NextGrows(runs, j, k - 1);
      assert runs[..k][..k - 1] == runs[..k - 1];
    }
  }

  ghost predicate Carries(f: string, index: nat) {
    exists step, target :: f == FileName(index, step, target)
  }

  lemma CarriesOnce(f: string, i: nat, j: nat)
    requires Carries(f, i) && Carries(f, j)
    ensures i == j
  {
    var s, t :| f == FileName(i, s, t);
    var s', t' :| f == FileName(j, s', t');
    FileNamesDiffer(i, s, t, j, s', t');
  }

  lemma NameCarries(r: Run, next: nat, i: nat)
    requires i < |r.bundles|
    ensures Carries(NameOf(r, next, i), next + i)
  {
  }

  /** The index of a file that run `k` writes. */
  lemma FileIndex(runs: seq<Run>, k: nat, f: string) returns (index: nat)
    requires k < |runs| && f in FilesOf(runs, k)
    ensures Carries(f, index) && NextAfter(runs[..k]) <= index < NextAfter(runs[..k]) + |runs[k].bundles|
  {
    var next := NextAfter(runs[..k]);
    var i :| 0 <= i < Touched(runs[k], |runs[k].bundles|) && f == NameOf(runs[k], next, i);
    NameCarries(runs[k], next, i);
    index := next + i;
  }

  /** A file listed by a successful run is never left by a later failed one. */
  lemma EarlierListedDiffers(runs: seq<Run>, j: nat, k: nat, f: string)
    requires j < k < |runs| && Lists(runs, j, f)
    ensures f !in FilesOf(runs, k)
  {
    if f in FilesOf(runs, k) {
      var a := FileIndex(runs, j, f);
      var b := FileIndex(runs, k, f);
      NextGrows(runs, j, k);
      CarriesOnce(f, a, b);
    }
  }

  /**
   After every history from the empty directory: the files present are exactly the listed ones if
   and only if every file left by a failed run has been adopted by a later successful one.
   */
  lemma OnlyListedIff(runs: seq<Run>)
    ensures OnlyListed(AfterAll(EMPTY, runs)) <==> LeftoversAdopted(runs)
  {
    DirectoryReflectsRuns(runs);
    var d := AfterAll(EMPTY, runs);
    if OnlyListed(d) {
      forall k, f | 0 <= k < |runs| && !Succeeds(runs[k]) && f in FilesOf(runs, k) ensures Adopted(runs, k, f) {
        assert WrittenIn(runs, f);
        assert f in d.files.Keys;
        ListedIsAdopted(runs, k, f);
      }
    }
    if LeftoversAdopted(runs) {
      forall f ensures f in d.files.Keys <==> f in Listed(d) {
        WrittenIsListed(runs, f);
      }
    }
  }

  lemma ListedIsAdopted(runs: seq<Run>, k: nat, f: string)
    requires k < |runs| && !Succeeds(runs[k]) && f in FilesOf(runs, k) && ListedIn(runs, f)
    ensures Adopted(runs, k, f)
  {
    var j :| 0 <= j < |runs| && Lists(runs, j, f);
    assert j != k;
    if j < k {
      EarlierListedDiffers(runs, j, k, f);
    }
  }

  lemma WrittenIsListed(runs: seq<Run>, f: string)
    requires LeftoversAdopted(runs)
    ensures WrittenIn(runs, f) <==> ListedIn(runs, f)
  {
    if WrittenIn(runs, f) {
      var k :| 0 <= k < |runs| && f in FilesOf(runs, k);
      if Succeeds(runs[k]) {
        assert Lists(runs, k, f);
      } else {
        assert Adopted(runs, k, f);
      }
    }
    if ListedIn(runs, f) {
      var k :| 0 <= k < |runs| && Lists(runs, k, f);
      assert f in FilesOf(runs, k);
    }
  }

  /** In particular: when every run that wrote a file also saved its manifest. */
  lemma SavedRunsLeaveOnlyListed(runs: seq<Run>)
    requires forall k :: 0 <= k < |runs| && Writes(runs[k]) ==> Succeeds(runs[k])
    ensures OnlyListed(AfterAll(EMPTY, runs))
  {
    OnlyListedIff(runs);
  }

  /** That alone is not necessary: repeating a failed command adopts the files it left. */
  lemma RetryAdopts(first: Run, second: Run)
    requires first.command == second.command && first.bundles == second.bundles
    requires !Succeeds(first) && Succeeds(second)
    ensures OnlyListed(AfterAll(EMPTY, [first, second]))
  {
    var runs := [first, second];
    assert runs[..0] == [] && runs[..1] == [first] && [first][..0] == [];
    forall k, f | 0 <= k < |runs| && !Succeeds(runs[k]) && f in FilesOf(runs, k) ensures Adopted(runs, k, f) {
      assert NextAfter(runs[..0]) == NextAfter(runs[..1]) == 1;
      SucceedsTouchesAll(second);
      var i :| 0 <= i < Touched(first, |first.bundles|) && f == NameOf(first, 1, i);
      assert f == NameOf(second, 1, i);
      assert Lists(runs, 1, f);
    }
    OnlyListedIff(runs);
  }

  // ----- indices -----

  lemma EntryCarries(d: Dir, i: nat, index: nat)
    requires Valid(d) && i < |Entries(d.manifest)| && Carries(Entries(d.manifest)[i].file, index)
    ensures Entries(d.manifest)[i].index == index
  {
    var e := Entries(d.manifest)[i];
    assert Named(e);
    assert Carries(e.file, e.index);
    CarriesOnce(e.file, e.index, index);
  }

  lemma ListedPosition(d: Dir, f: string) returns (i: nat)
    requires f in Listed(d)
    ensures i < |Entries(d.manifest)| && Entries(d.manifest)[i].file == f
  {
    var e :| e in Entries(d.manifest) && e.file == f;
    i :| 0 <= i < |Entries(d.manifest)| && Entries(d.manifest)[i] == e;
  }

  lemma EntriesIndexed(d: Dir, i: nat, j: nat)
    requires Valid(d) && i < |Entries(d.manifest)| && j < |Entries(d.manifest)|
    requires Entries(d.manifest)[i].index == Entries(d.manifest)[j].index
    ensures i == j
  {
  }

  /** Two listed files never carry the same index. */
  lemma ListedIndicesUnique(d: Dir, f: string, g: string, index: nat)
    requires Valid(d) && f in Listed(d) && g in Listed(d) && Carries(f, index) && Carries(g, index)
    ensures f == g
  {
    var i := ListedPosition(d, f);
    var j := ListedPosition(d, g);
    EntryCarries(d, i, index);
    EntryCarries(d, j, index);
    EntriesIndexed(d, i, j);
  }

  /** While exactly the listed files are there, no two files carry the same index. */
  lemma IndicesUnique(runs: seq<Run>, f: string, g: string, index: nat)
    requires LeftoversAdopted(runs)
    requires f in AfterAll(EMPTY, runs).files && g in AfterAll(EMPTY, runs).files && Carries(f, index) && Carries(g, index)
    ensures f == g
  {
    var d := AfterAll(EMPTY, runs);
    AllRunsKeep(EMPTY, runs);
    OnlyListedIff(runs);
    assert f in d.files.Keys && g in d.files.Keys;
    ListedIndicesUnique(d, f, g, index);
  }

  lemma {:induction false} NothingBetween(runs: seq<Run>, k: nat, l: nat)
    requires k < l <= |runs| && !Succeeds(runs[k]) && forall j :: k < j < l ==> !Writes(runs[j])
    ensures NextAfter(runs[..l]) == NextAfter(runs[..k])
  {
    assert runs[..l][..l - 1] == runs[..l - 1];
    if k + 1 < l {
      NothingBetween(runs, k, l - 1);
      var r := runs[l - 1];
      if Succeeds(r) {
        SucceedsTouchesAll(r);
      }
    }
  }

  /**
   Otherwise a run wrote without saving its manifest, and the next run to write anything starts at
   the same index: both first files are there afterwards and carry it. They are two files with one
   index unless the second run happens to repeat the name.
   */
  lemma NextWriteReusesIndex(runs: seq<Run>, k: nat, l: nat)
    requires k < l < |runs| && Writes(runs[k]) && !Succeeds(runs[k]) && Writes(runs[l])
    requires forall j :: k < j < l ==> !Writes(runs[j])
    ensures var index := NextAfter(runs[..k]);
      var f, g := NameOf(runs[k], index, 0), NameOf(runs[l], index, 0);
      && Carries(f, index) && Carries(g, index)
      && f in AfterAll(EMPTY, runs).files && g in AfterAll(EMPTY, runs).files
  {
    var index := NextAfter(runs[..k]);
    NothingBetween(runs, k, l);
    NameCarries(runs[k], index, 0);
    NameCarries(runs[l], index, 0);
    DirectoryReflectsRuns(runs);
    assert NameOf(runs[k], index, 0) in FilesOf(runs, k);
    assert NameOf(runs[l], index, 0) in FilesOf(runs, l);
    assert WrittenIn(runs, NameOf(runs[k], index, 0)) && WrittenIn(runs, NameOf(runs[l], index, 0));
  }

  // ----- when numbering continues past the existing files -----

  /** Every file that is there when run `l` begins carries an index below the one the run starts at. */
  ghost predicate Continues(runs: seq<Run>, l: nat)
    requires l < |runs|
  {
    forall f, index: nat :: f in AfterAll(EMPTY, runs[..l]).files && Carries(f, index) ==> index < NextAfter(runs[..l])
  }

  /** The number behind the last file that run `k` writes. */
  function EndOf(runs: seq<Run>, k: nat): nat
    requires k < |runs|
  {
    NextAfter(runs[..k]) + Touched(runs[k], |runs[k].bundles|)
  }

  /** The index of a file, bounded by the number of files its run wrote. */
  lemma FileIndexBelowEnd(runs: seq<Run>, k: nat, f: string, index: nat)
    requires k < |runs| && f in FilesOf(runs, k) && Carries(f, index)
    ensures index < EndOf(runs, k)
  {
    var i := WrittenAs(runs[k], NextAfter(runs[..k]), f);
    CarriesOnce(f, index, NextAfter(runs[..k]) + i);
  }

  lemma WrittenAs(r: Run, next: nat, f: string) returns (i: nat)
    requires f in Names(r, next, Touched(r, |r.bundles|))
    ensures i < Touched(r, |r.bundles|) && Carries(f, next + i)
  {
    i :| 0 <= i < Touched(r, |r.bundles|) && f == NameOf(r, next, i);
    NameCarries(r, next, i);
  }

  /** The last file that run `k` writes. */
  lemma LastFile(runs: seq<Run>, k: nat) returns (f: string)
    requires k < |runs| && Touched(runs[k], |runs[k].bundles|) > 0
    ensures f in FilesOf(runs, k) && Carries(f, EndOf(runs, k) - 1)
  {
    var last := Touched(runs[k], |runs[k].bundles|) - 1;
    f := NameOf(runs[k], NextAfter(runs[..k]), last);
    NameCarries(runs[k], NextAfter(runs[..k]), last);
  }

  lemma PresentAt(runs: seq<Run>, l: nat, f: string)
    requires l < |runs|
    ensures f in AfterAll(EMPTY, runs[..l]).files <==> exists k :: 0 <= k < l && f in FilesOf(runs, k)
  {
    DirectoryReflectsRuns(runs[..l]);
    if WrittenIn(runs[..l], f) {
      var k :| 0 <= k < l && f in FilesOf(runs[..l], k);
      FilesOfPrefix(runs, l, k);
    }
    if k :| 0 <= k < l && f in FilesOf(runs, k) {
      FilesOfPrefix(runs, l, k);
      assert WrittenIn(runs[..l], f);
    }
  }

  /** What numbering needs from run `k`: that all its files lie below where run `l` starts. */
  ghost predicate Covered(runs: seq<Run>, k: nat, l: nat)
    requires k < |runs| && l < |runs|
  {
    EndOf(runs, k) <= NextAfter(runs[..l])
  }

  lemma SuccessCovered(runs: seq<Run>, k: nat, l: nat)
    requires k < l < |runs| && (Succeeds(runs[k]) || !Writes(runs[k]))
    ensures Covered(runs, k, l)
  {
    NextGrows(runs, k, l);
    if Succeeds(runs[k]) {
      SucceedsTouchesAll(runs[k]);
    }
  }

  /**
   For every history and every run of it: the run continues past all existing files if and only if
   the successful runs before it have taken numbering past the files of every failed one.
   */
  lemma ContinuesIff(runs: seq<Run>, l: nat)
    requires l < |runs|
    ensures Continues(runs, l) <==> forall k :: 0 <= k < l && !Succeeds(runs[k]) ==> Covered(runs, k, l)
  {
    if Continues(runs, l) {
      forall k | 0 <= k < l && !Succeeds(runs[k]) ensures Covered(runs, k, l) {
        ContinuesCovers(runs, k, l);
      }
    }
    if forall k :: 0 <= k < l && !Succeeds(runs[k]) ==> Covered(runs, k, l) {
      forall f, index: nat | f in AfterAll(EMPTY, runs[..l]).files && Carries(f, index) ensures index < NextAfter(runs[..l]) {
        PresentAt(runs, l, f);
        var k :| 0 <= k < l && f in FilesOf(runs, k);
        if Succeeds(runs[k]) {
          SuccessCovered(runs, k, l);
        }
        FileIndexBelowEnd(runs, k, f, index);
      }
    }
  }

  lemma ContinuesCovers(runs: seq<Run>, k: nat, l: nat)
    requires k < l < |runs| && Continues(runs, l)
    ensures Covered(runs, k, l)
  {
    if Writes(runs[k]) {
      var f := LastFile(runs, k);
      PresentAt(runs, l, f);
    } else {
      SuccessCovered(runs, k, l);
    }
  }

  /** No run writes a file once a run has written one without succeeding. */
  ghost predicate NoWriteAfterFailedWrite(runs: seq<Run>) {
    forall k, l :: 0 <= k < l < |runs| && Writes(runs[k]) && !Succeeds(runs[k]) ==> !Writes(runs[l])
  }

  lemma FirstWriterAfter(runs: seq<Run>, k: nat, l: nat) returns (j: nat)
    requires k < l < |runs| && Writes(runs[l])
    ensures k < j <= l && Writes(runs[j]) && forall i :: k < i < j ==> !Writes(runs[i])
    decreases l
  {
    j := l;
    if i :| k < i < l && Writes(runs[i]) {
      j := FirstWriterAfter(runs, k, i);
    }
  }

  /** The next run to write after a failed write does not continue past the existing files. */
  lemma FailedWriteBreaks(runs: seq<Run>, k: nat, j: nat)
    requires k < j < |runs| && Writes(runs[k]) && !Succeeds(runs[k]) && forall i :: k < i < j ==> !Writes(runs[i])
    ensures !Continues(runs, j)
  {
    NothingBetween(runs, k, j);
    if Continues(runs, j) {
      ContinuesCovers(runs, k, j);
    }
  }

  /**
   For every history: every run that writes continues past all existing files if and only if no run
   writes after a run that wrote without succeeding.
   */
  lemma NumberingContinuesIff(runs: seq<Run>)
    ensures (forall l :: 0 <= l < |runs| && Writes(runs[l]) ==> Continues(runs, l)) <==> NoWriteAfterFailedWrite(runs)
  {
    if NoWriteAfterFailedWrite(runs) {
      forall l | 0 <= l < |runs| && Writes(runs[l]) ensures Continues(runs, l) {
        forall k | 0 <= k < l && !Succeeds(runs[k]) ensures Covered(runs, k, l) {
          SuccessCovered(runs, k, l);
        }
        ContinuesIff(runs, l);
      }
    } else {
      var k, l :| 0 <= k < l < |runs| && Writes(runs[k]) && !Succeeds(runs[k]) && Writes(runs[l]);
      var j := FirstWriterAfter(runs, k, l);
      FailedWriteBreaks(runs, k, j);
    }
  }

  // ----- when indices are unique -----

  predicate WritesFile(runs: seq<Run>, k: nat, i: nat) {
    k < |runs| && i < Touched(runs[k], |runs[k].bundles|)
  }

  /** Name and number of file `i` of run `k`. */
  function FileAt(runs: seq<Run>, k: nat, i: nat): string
    requires WritesFile(runs, k, i)
  {
    NameOf(runs[k], NextAfter(runs[..k]), i)
  }

  function NumberAt(runs: seq<Run>, k: nat, i: nat): nat
    requires WritesFile(runs, k, i)
  {
    NextAfter(runs[..k]) + i
  }

  /** Wherever two runs use the same number, they use the same file name. */
  ghost predicate NumbersNameFiles(runs: seq<Run>) {
    forall k: nat, i: nat, l: nat, j: nat ::
      (WritesFile(runs, k, i) && WritesFile(runs, l, j) && NumberAt(runs, k, i) == NumberAt(runs, l, j)) ==>
        FileAt(runs, k, i) == FileAt(runs, l, j)
  }

  ghost predicate IndicesDistinct(d: Dir) {
    forall f, g, index: nat :: f in d.files && g in d.files && Carries(f, index) && Carries(g, index) ==> f == g
  }

  lemma FileAtFacts(runs: seq<Run>, k: nat, i: nat)
    requires WritesFile(runs, k, i)
    ensures Carries(FileAt(runs, k, i), NumberAt(runs, k, i)) && FileAt(runs, k, i) in FilesOf(runs, k)
  {
    NameCarries(runs[k], NextAfter(runs[..k]), i);
  }

  lemma FilePosition(runs: seq<Run>, f: string, index: nat) returns (k: nat, i: nat)
    requires WrittenIn(runs, f) && Carries(f, index)
    ensures WritesFile(runs, k, i) && FileAt(runs, k, i) == f && NumberAt(runs, k, i) == index
  {
    k :| 0 <= k < |runs| && f in FilesOf(runs, k);
    i :| 0 <= i < Touched(runs[k], |runs[k].bundles|) && f == NameOf(runs[k], NextAfter(runs[..k]), i);
    FileAtFacts(runs, k, i);
    CarriesOnce(f, index, NumberAt(runs, k, i));
  }

  /**
   After every history: no two files carry the same index if and only if runs that used the same
   number gave the file the same name.
   */
  lemma IndicesDistinctIff(runs: seq<Run>)
    ensures IndicesDistinct(AfterAll(EMPTY, runs)) <==> NumbersNameFiles(runs)
  {
    DirectoryReflectsRuns(runs);
    var d := AfterAll(EMPTY, runs);
    if NumbersNameFiles(runs) {
      forall f, g, index: nat | f in d.files && g in d.files && Carries(f, index) && Carries(g, index) ensures f == g {
        var k, i := FilePosition(runs, f, index);
        var l, j := FilePosition(runs, g, index);
      }
    }
    if IndicesDistinct(d) {
      forall k: nat, i: nat, l: nat, j: nat |
        WritesFile(runs, k, i) && WritesFile(runs, l, j) && NumberAt(runs, k, i) == NumberAt(runs, l, j)
        ensures FileAt(runs, k, i) == FileAt(runs, l, j)
      {
        FileAtFacts(runs, k, i);
        FileAtFacts(runs, l, j);
        assert WrittenIn(runs, FileAt(runs, k, i)) && WrittenIn(runs, FileAt(runs, l, j));
      }
    }
  }
}
